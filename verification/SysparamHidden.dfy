/**
 Second live values.  A set that compacts under a key without a value files the new value
 under an id that may since belong to another key, and there it lies hidden behind that
 key's own.  Here is what every set does to what each key shows and hides, and which keys
 still stand for what the callers were told, over every run without power cuts.
 */
module SysparamHidden {
  import opened Flash
  import opened Options
  import opened SysparamLog
  import opened SysparamCompact
  import opened SysparamSet
  import opened SysparamRuns

  // ----- what a key shows and hides -----

  /** The value that a key reads, and the one that lies behind it. */
  datatype Faces = Faces(front: Option<Value>, behind: Option<Value>)

  function FacesOf(log: seq<Entry>, k: seq<Byte>): (f: Faces)
  {
    Faces(Lookup(log, k), SecondValue(log, k))
  }

  /** Index of the second live value of `k`, or |log|. */
  function SecondIndex(log: seq<Entry>, k: seq<Byte>): (j: nat)
    ensures j <= |log|
  {
    var j := ValueIndex(log, k);
    if j == |log| then j else FindFrom(log, j + 1, log[j].Id(), true)
  }

  /** No key has three live values. */
  ghost predicate NoThird(log: seq<Entry>, k: seq<Byte>)
  {
    var y := SecondIndex(log, k);
    y < |log| ==> FindFrom(log, y + 1, log[y].Id(), true) == |log|
  }

  /** The faces of a key, given where its entry and its values are found. */
  lemma FacesAt(log: seq<Entry>, k: seq<Byte>, i: nat, j: nat, y: nat)
    requires i == KeyFrom(log, 0, k) < |log| && 1 <= log[i].Id() <= MAX_KEY_ID && j == FindFrom(log, i + 1, log[i].Id(), true)
    requires if j < |log| then y == FindFrom(log, j + 1, log[i].Id(), true) else y == |log|
    ensures FacesOf(log, k) == Faces(ContentAt(log, j), ContentAt(log, y))
    ensures ValueIndex(log, k) == j && SecondIndex(log, k) == y
  {
  }

  lemma AppendedValue(log: seq<Entry>, e: Entry, k: seq<Byte>)
    requires WellFormed(log) && e.IsValue() && e.InFormat()
    ensures FacesOf(log + [e], k) ==
            var f := FacesOf(log, k);
            if !HasKey(log, k) || e.Id() != KeyId(log, k) then f
            else if f.front.None? then Faces(Some(e.Content()), None)
            else if f.behind.None? then Faces(f.front, Some(e.Content())) else f
  {
    var log' := log + [e];
    AppendKey(log, e, k);
    if HasKey(log, k) {
      var i, id := KeyFrom(log, 0, k), KeyId(log, k);
      AppendFind(log, e, i + 1, id, true);
      assert log'[i] == log[i];
      var j := ValueIndex(log, k);
      if j < |log| {
        assert log'[j] == log[j] && log[j].Id() == id;
        AppendFind(log, e, j + 1, id, true);
        var y := FindFrom(log, j + 1, id, true);
        assert y < |log| ==> log'[y] == log[y];
      } else if e.Id() == id {
        assert FindFrom(log', |log| + 1, id, true) == |log| + 1;
      }
    }
  }

  lemma AppendedKey(log: seq<Entry>, e: Entry, k: seq<Byte>)
    requires WellFormed(log) && e.IsKey() && KeyOk(e)
    ensures FacesOf(log + [e], k) == FacesOf(log, k)
  {
    var log' := log + [e];
    AppendKey(log, e, k);
    if HasKey(log, k) {
      AppendedOtherKey(log, e, k);
    } else if IsKeyNamed(e, k) {
      assert FindFrom(log', |log| + 1, e.Id(), true) == |log| + 1;
      FacesAt(log', k, |log|, |log'|, |log'|);
    }
  }

  /** A search from `from` finds the same value in both logs, or none in both. */
  predicate SameFind(log: seq<Entry>, log': seq<Entry>, from: nat, id: nat)
    requires from <= |log| && from <= |log'|
  {
    var j, j' := FindFrom(log, from, id, true), FindFrom(log', from, id, true);
    if j < |log| then j' == j < |log'| && log'[j] == log[j] else j' == |log'|
  }

  lemma SameFaces(log: seq<Entry>, log': seq<Entry>, k: seq<Byte>)
    requires HasKey(log, k) && |log| <= |log'| && KeyFrom(log', 0, k) == KeyFrom(log, 0, k)
    requires var i := KeyFrom(log, 0, k); 1 <= log[i].Id() <= MAX_KEY_ID && log'[i] == log[i] && SameFind(log, log', i + 1, log[i].Id())
    requires ValueIndex(log, k) < |log| ==> SameFind(log, log', ValueIndex(log, k) + 1, KeyId(log, k))
    ensures FacesOf(log', k) == FacesOf(log, k)
  {
  }

  lemma AppendedOtherKey(log: seq<Entry>, e: Entry, k: seq<Byte>)
    requires WellFormed(log) && e.IsKey() && HasKey(log, k)
    ensures FacesOf(log + [e], k) == FacesOf(log, k)
  {
    AppendKey(log, e, k);
    KeyIdBounds(log, k);
    AppendSameFind(log, e, KeyFrom(log, 0, k) + 1, KeyId(log, k));
    if ValueIndex(log, k) < |log| { AppendSameFind(log, e, ValueIndex(log, k) + 1, KeyId(log, k)); }
    SameFaces(log, log + [e], k);
  }

  lemma AppendSameFind(log: seq<Entry>, e: Entry, from: nat, id: nat)
    requires e.IsKey() && from <= |log|
    ensures SameFind(log, log + [e], from, id)
  {
    AppendFind(log, e, from, id, true);
  }

  lemma KilledFront(log: seq<Entry>, key: seq<Byte>, k: seq<Byte>)
    requires WellFormed(log) && ValueIndex(log, key) < |log| && NoThird(log, key)
    ensures FacesOf(Kill(log, ValueIndex(log, key)), k) ==
            if k == key then Faces(SecondValue(log, key), None) else FacesOf(log, k)
  {
    var j := ValueIndex(log, key);
    KillKey(log, j, k);
    KeyIdBounds(log, key);
    if k == key {
      KilledOwnFront(log, key);
    } else if HasKey(log, k) {
      KeyIdsDiffer(log, key, k);
      KeyIdBounds(log, k);
      KilledOtherFront(log, j, k);
    }
  }

  lemma KilledOwnFront(log: seq<Entry>, key: seq<Byte>)
    requires WellFormed(log) && ValueIndex(log, key) < |log| && NoThird(log, key)
    ensures FacesOf(Kill(log, ValueIndex(log, key)), key) == Faces(SecondValue(log, key), None)
  {
    var i, j, y := KeyFrom(log, 0, key), ValueIndex(log, key), SecondIndex(log, key);
    var log' := Kill(log, j);
    KeyIdBounds(log, key);
    KillKey(log, j, key);
    KilledOwnFinds(log, key);
    FacesAt(log', key, i, y, |log|);
    assert y < |log| ==> log'[y] == log[y];
  }

  lemma KilledOwnFinds(log: seq<Entry>, key: seq<Byte>)
    requires WellFormed(log) && ValueIndex(log, key) < |log| && NoThird(log, key)
    ensures var i, j, y, id := KeyFrom(log, 0, key), ValueIndex(log, key), SecondIndex(log, key), KeyId(log, key);
            var log' := Kill(log, j);
            && i < |log| && log'[i] == log[i] && y != j
            && FindFrom(log', i + 1, id, true) == y && (y < |log| ==> FindFrom(log', y + 1, id, true) == |log|)
  {
    var i, j, y, id := KeyFrom(log, 0, key), ValueIndex(log, key), SecondIndex(log, key), KeyId(log, key);
    KeyIdBounds(log, key);
    KillFind(log, j, i + 1, id);
    if y < |log| { KillFind(log, j, y + 1, id); }
  }

  /** Deleting a value of another id changes no search for this one. */
  lemma KillSameFind(log: seq<Entry>, x: nat, from: nat, id: nat)
    requires x < |log| && from <= |log| && log[x].Id() != id && id != ENTRY_ID_ANY
    ensures SameFind(log, Kill(log, x), from, id)
  {
    KillFind(log, x, from, id);
  }

  lemma KilledOtherFront(log: seq<Entry>, x: nat, k: seq<Byte>)
    requires x < |log| && log[x].IsValue() && HasKey(log, k) && 1 <= KeyId(log, k) <= MAX_KEY_ID && log[x].Id() != KeyId(log, k)
    ensures FacesOf(Kill(log, x), k) == FacesOf(log, k)
  {
    KillKey(log, x, k);
    KillSameFind(log, x, KeyFrom(log, 0, k) + 1, KeyId(log, k));
    if ValueIndex(log, k) < |log| { KillSameFind(log, x, ValueIndex(log, k) + 1, KeyId(log, k)); }
    SameFaces(log, Kill(log, x), k);
  }

  lemma NewPairFaces(log: seq<Entry>, n: nat, key: seq<Byte>, v: Value, k: seq<Byte>)
    requires WellFormed(log) && Legal(key, v) && LastKeyId(log, |log|) < n <= MAX_KEY_ID && !HasKey(log, key)
    ensures FacesOf(log + [KeyEntry(n, key)] + [ValueEntry(n, v)], k) == if k == key then Faces(Some(v), None) else FacesOf(log, k)
  {
    var log1 := log + [KeyEntry(n, key)];
    AppendNewKey(log, n, key, k);
    AppendedKey(log, KeyEntry(n, key), k);
    AppendedValue(log1, ValueEntry(n, v), k);
    KeyIdBounds(log, k);
    KeyIdBounds(log1, k);
  }

  /** A value appended for `key` goes to the end of that key's values. */
  lemma OwnValueFaces(log: seq<Entry>, key: seq<Byte>, v: Value, k: seq<Byte>)
    requires WellFormed(log) && Legal(key, v) && HasKey(log, key) && SecondValue(log, key).None?
    ensures FacesOf(log + [ValueEntry(KeyId(log, key), v)], k) ==
            if k != key then FacesOf(log, k)
            else if Lookup(log, key).Some? then Faces(Lookup(log, key), Some(v)) else Faces(Some(v), None)
  {
    KeyIdBounds(log, key);
    AppendedValue(log, ValueEntry(KeyId(log, key), v), k);
    if k != key { KeyIdsDiffer(log, key, k); }
  }

  /** Appending a value and deleting the current one: whatever lay behind comes forward,
      and then the new one lies behind. */
  lemma ReplacedFaces(log: seq<Entry>, key: seq<Byte>, v: Value, k: seq<Byte>)
    requires WellFormed(log) && Legal(key, v) && !OutOfIds(log, key) && NoThird(log, key)
    ensures FacesOf(PutAndKill(log, key, v), k) ==
            if k != key then FacesOf(log, k)
            else if SecondValue(log, key).Some? then Faces(SecondValue(log, key), Some(v)) else Faces(Some(v), None)
  {
    var j := ValueIndex(log, key);
    KeyIdBounds(log, key);
    if !HasKey(log, key) {
      NewPairFaces(log, LastKeyId(log, |log|) + 1, key, v, k);
    } else if j < |log| {
      var e, log1 := ValueEntry(KeyId(log, key), v), Kill(log, j);
      assert PutAndKill(log, key, v) == log1 + [e] by { assert Kill(log + [e], j) == log1 + [e]; }
      KilledFront(log, key, k);
      KilledFront(log, key, key);
      KillWellFormed(log, j);
      SameKeyId(log, j, key);
      OwnValueFaces(log1, key, v, k);
    } else {
      OwnValueFaces(log, key, v, k);
    }
  }

  lemma SameKeyId(log: seq<Entry>, j: nat, k: seq<Byte>)
    requires j < |log| && log[j].IsValue()
    ensures KeyId(Kill(log, j), k) == KeyId(log, k) && HasKey(Kill(log, j), k) == HasKey(log, k)
  {
    KillKey(log, j, k);
  }

  // ----- after a compaction -----

  /** The value set under a key that the compaction has dropped lies behind that of `k`,
      whose new id is the dropped key's old one. */
  predicate HidesBehind(log: seq<Entry>, key: seq<Byte>, k: seq<Byte>)
  {
    && HasKey(log, key) && Lookup(log, key).None? && Lookup(log, k).Some?
    && KeyId(CompactedLog(log, KeyId(log, key)), k) == KeyId(log, key)
  }

  lemma CompactedFaces(log: seq<Entry>, key: seq<Byte>, k: seq<Byte>)
    requires WellFormed(log)
    ensures var log1 := CompactedLog(log, Target(log, key));
            WellFormed(log1) && FacesOf(log1, k) == Faces(if k == key then None else Lookup(log, k), None)
  {
    CompactedKeepsOthers(log, key, k);
    FullAfterCompaction(log, key);
    CompactedLogClean(log, Target(log, key));
    CleanHidesNothing(CompactedLog(log, Target(log, key)), k);
  }

  lemma CompactedAndPutFaces(log: seq<Entry>, key: seq<Byte>, v: Value, k: seq<Byte>)
    requires WellFormed(log) && Legal(key, v) && IdsLeft(log, key)
    ensures FacesOf(CompactAndPut(log, key, v), k) ==
            if HasKey(log, key) && Lookup(log, key).None? then Faces(Lookup(log, k), if HidesBehind(log, key, k) then Some(v) else None)
            else Faces(if k == key then Some(v) else Lookup(log, k), None)
  {
    var t := Target(log, key);
    var log1 := CompactedLog(log, t);
    CompactAndPutLookup(log, key, v, k);
    if HasKey(log, key) && Lookup(log, key).None? {
      KeyIdBounds(log, key);
      CompactionForgetsOrphan(log, key);
      CompactedFaces(log, key, k);
      CompactionMeaning(log, t, k);
      AppendedValue(log1, ValueEntry(t, v), k);
    } else {
      CompactAndPutClean(log, key, v);
      CleanHidesNothing(CompactAndPut(log, key, v), k);
    }
  }

  // ----- one set -----

  /** The exact effect of a set on what every key shows and hides. */
  function FacesAfter(log: seq<Entry>, cap: nat, force: bool, key: seq<Byte>, v: Value, k: seq<Byte>): (f: Faces)
  {
    var f, o := FacesOf(log, k), FacesOf(log, key);
    if v.data == [] then if k == key then Faces(o.behind, None) else f
    else if o.front == Some(v) then f
    else match Judge(log, cap, force, key, |v.data|)
      case Fits => if k != key then f else if o.behind.Some? then Faces(o.behind, Some(v)) else Faces(Some(v), None)
      case Full => f
      case FullAnyway => Faces(if k == key then None else f.front, None)
      case Compacts =>
        if LosesOrphan(log, cap, force, key, v) then Faces(f.front, if HidesBehind(log, key, k) then Some(v) else None)
        else Faces(if k == key then Some(v) else f.front, None)
  }

  lemma SetFaces(log: seq<Entry>, cap: nat, force: bool, key: seq<Byte>, v: Value, k: seq<Byte>)
    requires WellFormed(log) && Legal(key, v) && NoThird(log, key)
    ensures FacesOf(Set(log, cap, force, key, v).log, k) == FacesAfter(log, cap, force, key, v, k)
  {
    if v.data == [] {
      if ValueIndex(log, key) < |log| { KilledFront(log, key, k); }
    } else if Lookup(log, key) != Some(v) {
      JudgeFacts(log, cap, force, key, |v.data|);
      OrphanOutcome(log, cap, force, key, v);
      match Judge(log, cap, force, key, |v.data|)
      case Fits => ReplacedFaces(log, key, v, k);
      case Full =>
      case FullAnyway => CompactedFaces(log, key, k);
      case Compacts => CompactedAndPutFaces(log, key, v, k);
    }
  }

  /** The one set that goes wrong hides its value behind that of the key, if there is one,
      to which the compaction has given the lost key's id; nothing else is left hidden. */
  lemma OrphanHidesBehind(log: seq<Entry>, cap: nat, force: bool, key: seq<Byte>, v: Value, k: seq<Byte>)
    requires WellFormed(log) && Legal(key, v) && LosesOrphan(log, cap, force, key, v) && k != key && Lookup(log, k).Some?
    ensures var t := KeyId(log, key);
            SecondValue(Set(log, cap, force, key, v).log, k) == if KeyId(CompactedLog(log, t), k) == t then Some(v) else None
  {
    OrphanOutcome(log, cap, force, key, v);
    CompactedAndPutFaces(log, key, v, k);
  }

  // ----- at most one value too many -----

  /** Without the value at `x` the log would be clean. */
  ghost predicate Spare(log: seq<Entry>, x: nat)
  {
    x < |log| && log[x].IsValue() && Clean(Kill(log, x))
  }

  /** What holds after every run without power cuts: the log is clean but for at most one
      value. */
  ghost predicate OneOff(log: seq<Entry>)
  {
    WellFormed(log) && (Clean(log) || exists x {:trigger Spare(log, x)} :: Spare(log, x))
  }

  lemma DoubleIsSpare(log: seq<Entry>, x: nat, i: nat, j: nat)
    requires Spare(log, x) && i < j < |log| && log[i].IsValue() && log[j].IsValue() && log[i].Id() == log[j].Id()
    ensures x == i || x == j
  {
    var log' := Kill(log, x);
    assert i != x ==> log'[i] == log[i];
    assert j != x ==> log'[j] == log[j];
  }

  /** Where the values of a key with a second one are. */
  lemma HiddenPlaces(log: seq<Entry>, k: seq<Byte>)
    requires WellFormed(log) && SecondValue(log, k).Some?
    ensures var j, y, id := ValueIndex(log, k), SecondIndex(log, k), KeyId(log, k);
            && j < y < |log| && log[j].IsValue() && log[y].IsValue() && log[j].Id() == id && log[y].Id() == id
            && HasOwner(log, j) && HasKey(log, k)
  {
    KeyIdBounds(log, k);
    var i := KeyFrom(log, 0, k);
    assert log[i].IsKey() && log[i].Id() == log[ValueIndex(log, k)].Id();
  }

  lemma OneOffNoThird(log: seq<Entry>, k: seq<Byte>)
    requires OneOff(log)
    ensures NoThird(log, k)
  {
    var y := SecondIndex(log, k);
    if y < |log| && FindFrom(log, y + 1, log[y].Id(), true) < |log| {
      HiddenPlaces(log, k);
      KeyIdBounds(log, k);
      var j, z := ValueIndex(log, k), FindFrom(log, y + 1, log[y].Id(), true);
      var x :| Spare(log, x);
      DoubleIsSpare(log, x, j, y);
      DoubleIsSpare(log, x, j, z);
      DoubleIsSpare(log, x, y, z);
      assert false;
    }
  }

  /** At any time at most one key hides a second value. */
  lemma OneHidden(log: seq<Entry>, k1: seq<Byte>, k2: seq<Byte>)
    requires OneOff(log) && SecondValue(log, k1).Some? && SecondValue(log, k2).Some?
    ensures k1 == k2
  {
    HiddenPlaces(log, k1);
    HiddenPlaces(log, k2);
    if k1 != k2 {
      KeyIdsDiffer(log, k1, k2);
      var x :| Spare(log, x);
      DoubleIsSpare(log, x, ValueIndex(log, k1), SecondIndex(log, k1));
      DoubleIsSpare(log, x, ValueIndex(log, k2), SecondIndex(log, k2));
      assert false;
    }
  }

  lemma KillsCommute(log: seq<Entry>, i: nat, j: nat)
    requires i < |log| && j < |log| && i != j
    ensures Kill(Kill(log, i), j) == Kill(Kill(log, j), i)
  {
  }

  /** Of two values with the same id either is one too many. */
  lemma SpareSwaps(log: seq<Entry>, j: nat, y: nat)
    requires WellFormed(log) && Spare(log, y) && j < y && log[j].IsValue() && log[j].Id() == log[y].Id() && HasOwner(log, j)
    ensures Spare(log, j)
  {
    var l, m := Kill(log, j), Kill(log, y);
    KillWellFormed(log, j);
    KilledIsDead(log[j]);
    KilledIsDead(log[y]);
    forall n | 0 <= n < |l| && l[n].IsValue() ensures HasOwner(l, n) && (n != y ==> m[n] == l[n] && l[n].Id() != l[y].Id()) {
      assert n != j && l[n] == log[n] && m[j] == log[j];
      if n == y {
        var i :| 0 <= i < j && log[i].IsKey() && log[i].Id() == log[j].Id();
        assert l[i].IsKey() && l[i].Id() == l[n].Id();
      } else {
        assert m[n] == log[n] && HasOwner(m, n);
        var i :| 0 <= i < n && m[i].IsKey() && m[i].Id() == m[n].Id();
        assert l[i].IsKey() && l[i].Id() == l[n].Id();
      }
    }
  }

  lemma UnsetKeepsOneOff(log: seq<Entry>, j: nat)
    requires OneOff(log) && j < |log| && log[j].IsValue()
    ensures OneOff(Kill(log, j))
  {
    KillWellFormed(log, j);
    if Clean(log) {
      KillClean(log, j);
    } else {
      var x :| Spare(log, x);
      if x != j {
        KillsCommute(log, x, j);
        KillClean(Kill(log, x), j);
        assert Spare(Kill(log, j), x);
      }
    }
  }

  /** A dead entry at the end keeps the log clean, so a value there is one too many. */
  lemma LastIsSpare(log: seq<Entry>, e: Entry)
    requires Clean(log) && e.IsValue() && e.InFormat()
    ensures OneOff(log + [e])
  {
    var log' := log + [e];
    KilledIsDead(e);
    AppendOther(log, e, []);
    AppendOther(log, e.Killed(), []);
    AppendKeyClean(log, e.Killed());
    assert Kill(log', |log|) == log + [e.Killed()];
    assert Spare(log', |log|);
  }

  lemma ReplacingKeepsOneOff(log: seq<Entry>, key: seq<Byte>, v: Value)
    requires OneOff(log) && Legal(key, v) && !OutOfIds(log, key)
    ensures OneOff(PutAndKill(log, key, v))
  {
    if Clean(log) {
      PutAndKillClean(log, key, v);
    } else {
      var x :| Spare(log, x);
      PutAndKillLookup(log, key, v, key);
      if ValueIndex(log, key) == x { ReplacedSpare(log, x, key, v); }
      else if SecondIndex(log, key) == x {
        HiddenPlaces(log, key);
        SpareSwaps(log, ValueIndex(log, key), x);
        ReplacedSpare(log, ValueIndex(log, key), key, v);
      } else { ReplacedBesideSpare(log, x, key, v); }
    }
  }

  /** The value that is replaced is the one too many: then the new one may be. */
  lemma ReplacedSpare(log: seq<Entry>, x: nat, key: seq<Byte>, v: Value)
    requires WellFormed(log) && Spare(log, x) && Legal(key, v) && ValueIndex(log, key) == x
    ensures OneOff(PutAndKill(log, key, v))
  {
    KeyIdBounds(log, key);
    var e := ValueEntry(KeyId(log, key), v);
    assert PutAndKill(log, key, v) == Kill(log, x) + [e] by { assert Kill(log + [e], x) == Kill(log, x) + [e]; }
    LastIsSpare(Kill(log, x), e);
  }

  /** The one too many is elsewhere, and stays so. */
  lemma ReplacedBesideSpare(log: seq<Entry>, x: nat, key: seq<Byte>, v: Value)
    requires WellFormed(log) && Spare(log, x) && Legal(key, v) && !OutOfIds(log, key)
    requires ValueIndex(log, key) != x && SecondIndex(log, key) != x
    ensures OneOff(PutAndKill(log, key, v))
  {
    var log0, log' := Kill(log, x), PutAndKill(log, key, v);
    PutAndKillCommutes(log, x, key, v);
    PutAndKillClean(log0, key, v);
    PutAndKillLookup(log, key, v, key);
    assert Spare(log', x);
  }

  lemma PutAndKillCommutes(log: seq<Entry>, x: nat, key: seq<Byte>, v: Value)
    requires WellFormed(log) && x < |log| && log[x].IsValue() && ValueIndex(log, key) != x
    ensures var log' := PutAndKill(log, key, v);
            && |log| <= |log'| && log'[x] == log[x] && Kill(log', x) == PutAndKill(Kill(log, x), key, v)
            && OutOfIds(Kill(log, x), key) == OutOfIds(log, key)
  {
    var j, log1 := ValueIndex(log, key), Put(log, Target(log, key), key, v);
    KilledElsewhere(log, x, key);
    PutCommutes(log, x, Target(log, key), key, v);
    if j < |log| { KillsCommute(log1, j, x); }
  }

  lemma PutCommutes(log: seq<Entry>, x: nat, id: int, key: seq<Byte>, v: Value)
    requires x < |log| && log[x].IsValue()
    ensures var log1 := Put(log, id, key, v);
            |log| <= |log1| && log1[x] == log[x] && Kill(log1, x) == Put(Kill(log, x), id, key, v)
  {
    KillLastKey(log, x, |log|);
    var n := LastKeyId(log, |log|) + 1;
    var e, w := KeyEntry(n, key), ValueEntry(n, v);
    if id >= 0 { KillAppend(log, x, ValueEntry(id, v)); }
    KillAppend(log, x, e);
    KillAppend(log + [e], x, w);
  }

  lemma KillAppend(log: seq<Entry>, x: nat, e: Entry)
    requires x < |log|
    ensures Kill(log + [e], x) == Kill(log, x) + [e]
  {
  }

  /** Deleting a value that the key does not read changes neither its entry nor where its
      value is, nor the ids in use. */
  lemma KilledElsewhere(log: seq<Entry>, x: nat, key: seq<Byte>)
    requires x < |log| && log[x].IsValue() && ValueIndex(log, key) != x
    ensures var log0 := Kill(log, x);
            && HasKey(log0, key) == HasKey(log, key) && KeyId(log0, key) == KeyId(log, key)
            && ValueIndex(log0, key) == ValueIndex(log, key) && LastKeyId(log0, |log0|) == LastKeyId(log, |log|)
  {
    KillKey(log, x, key);
    if HasKey(log, key) { KillFind(log, x, KeyFrom(log, 0, key) + 1, KeyId(log, key)); }
    KillLastKey(log, x, |log|);
  }

  lemma {:induction false} KillLastKey(log: seq<Entry>, x: nat, n: nat)
    requires x < |log| && log[x].IsValue() && n <= |log|
    ensures LastKeyId(Kill(log, x), n) == LastKeyId(log, n)
  {
    KilledIsDead(log[x]);
    if n > 0 { KillLastKey(log, x, n - 1); }
  }

  /** Every set leaves at most one value too many. */
  lemma SetKeepsOneOff(log: seq<Entry>, cap: nat, force: bool, key: seq<Byte>, v: Value)
    requires OneOff(log) && Legal(key, v)
    ensures OneOff(Set(log, cap, force, key, v).log)
  {
    if v.data == [] {
      if ValueIndex(log, key) < |log| { UnsetKeepsOneOff(log, ValueIndex(log, key)); }
    } else if Lookup(log, key) != Some(v) {
      JudgeFacts(log, cap, force, key, |v.data|);
      CompactedLogClean(log, Target(log, key));
      match Judge(log, cap, force, key, |v.data|)
      case Fits => ReplacingKeepsOneOff(log, key, v);
      case Compacts => CompactingIsOneOff(log, key, v);
      case _ =>
    }
  }

  lemma CompactingIsOneOff(log: seq<Entry>, key: seq<Byte>, v: Value)
    requires WellFormed(log) && Legal(key, v) && IdsLeft(log, key)
    ensures OneOff(CompactAndPut(log, key, v))
  {
    CompactedLogClean(log, Target(log, key));
    if HasKey(log, key) && Lookup(log, key).None? {
      KeyIdBounds(log, key);
      CompactionForgetsOrphan(log, key);
      LastIsSpare(CompactedLog(log, KeyId(log, key)), ValueEntry(KeyId(log, key), v));
    } else {
      CompactAndPutClean(log, key, v);
    }
  }

  // ----- every run without power cuts -----

  /** A run from an empty region, of any length, with any calls and force-compact flags. */
  ghost predicate IsRun(states: seq<State>, cap: nat, calls: seq<Call>)
  {
    && |states| == |calls| + 1 && states[0] == State([], map[])
    && forall i :: 0 <= i < |calls| ==> IsStep(states, cap, calls, i)
  }

  ghost predicate IsStep(states: seq<State>, cap: nat, calls: seq<Call>, i: nat)
    requires i < |calls| && |states| == |calls| + 1
  {
    states[i + 1] == After(states[i], cap, calls[i]) && Legal(calls[i].key, calls[i].v)
  }

  /** The key reads as the outcomes of the calls say. */
  predicate Holds(s: State, k: seq<Byte>)
  {
    Lookup(s.log, k) == if k in s.m then Some(s.m[k]) else None
  }

  /** The call is reported as done and misses its effect: an unset or a replacement that
      brings a hidden value forward, or a set that loses an orphan. */
  predicate Misses(log: seq<Entry>, cap: nat, c: Call)
  {
    if c.v.data == [] then SecondValue(log, c.key).Some?
    else Set(log, cap, c.force, c.key, c.v).status == Ok && !WillTakeEffect(log, cap, c.force, c.key, c.v)
  }

  /** The call is refused and has changed nothing. */
  predicate Refused(log: seq<Entry>, cap: nat, c: Call)
  {
    c.v.data != [] && Lookup(log, c.key) != Some(c.v) && Judge(log, cap, c.force, c.key, |c.v.data|) == Full
  }

  /** Of the first `n` calls, the last one that named `k` and was not refused has missed. */
  predicate Astray(states: seq<State>, cap: nat, calls: seq<Call>, n: nat, k: seq<Byte>)
    requires n <= |calls| && |states| == |calls| + 1
  {
    n > 0 &&
      if calls[n - 1].key != k || Refused(states[n - 1].log, cap, calls[n - 1]) then Astray(states, cap, calls, n - 1, k)
      else Misses(states[n - 1].log, cap, calls[n - 1])
  }

  lemma CallOnOther(s: State, cap: nat, c: Call, k: seq<Byte>)
    requires WellFormed(s.log) && Legal(c.key, c.v) && (c.key != k || Refused(s.log, cap, c))
    ensures Holds(After(s, cap, c), k) <==> Holds(s, k)
  {
    SetKeepsOthers(s.log, cap, c.force, c.key, c.v, k);
  }

  lemma CallOnKey(s: State, cap: nat, c: Call)
    requires WellFormed(s.log) && Legal(c.key, c.v) && !Refused(s.log, cap, c)
    ensures Holds(After(s, cap, c), c.key) <==> !Misses(s.log, cap, c)
  {
    var r := Set(s.log, cap, c.force, c.key, c.v);
    if c.v.data == [] {
      UnsetTakesEffect(s.log, cap, c.force, c.key, c.v);
    } else if r.status == Ok {
      SetTakesEffect(s.log, cap, c.force, c.key, c.v);
    } else {
      FullOutcome(s.log, cap, c.force, c.key, c.v);
      FullAfterCompaction(s.log, c.key);
    }
  }

  /** Over every run every log fits, has at most one value too many, and a key reads as the
      reported outcomes say if and only if it has not gone astray. */
  lemma {:induction false} RunRefines(states: seq<State>, cap: nat, calls: seq<Call>, n: nat, k: seq<Byte>)
    requires IsRun(states, cap, calls) && n <= |calls|
    ensures OneOff(states[n].log) && Offset(states[n].log, |states[n].log|) <= cap
    ensures Holds(states[n], k) <==> !Astray(states, cap, calls, n, k)
  {
    if n == 0 {
      EmptyLog();
    } else {
      RunRefines(states, cap, calls, n - 1, k);
      assert IsStep(states, cap, calls, n - 1);
      var s, c := states[n - 1], calls[n - 1];
      SetKeepsOneOff(s.log, cap, c.force, c.key, c.v);
      SetFits(s.log, cap, c.force, c.key, c.v);
      if c.key != k || Refused(s.log, cap, c) { CallOnOther(s, cap, c, k); } else { CallOnKey(s, cap, c); }
    }
  }

  /** As long as no set loses an orphan, no key goes astray. */
  lemma {:induction false} NobodyGoesAstray(states: seq<State>, cap: nat, calls: seq<Call>, n: nat, k: seq<Byte>)
    requires IsRun(states, cap, calls) && n <= |calls|
    requires forall i :: 0 <= i < n ==> !LosesOrphan(states[i].log, cap, calls[i].force, calls[i].key, calls[i].v)
    ensures Clean(states[n].log) && !Astray(states, cap, calls, n, k)
  {
    if n == 0 {
      EmptyLog();
    } else {
      NobodyGoesAstray(states, cap, calls, n - 1, k);
      assert IsStep(states, cap, calls, n - 1);
      var log, c := states[n - 1].log, calls[n - 1];
      SetClean(log, cap, c.force, c.key, c.v);
      CleanHidesNothing(log, c.key);
      if c.v.data != [] && Set(log, cap, c.force, c.key, c.v).status == Ok { SucceedsInFull(log, cap, c.force, c.key, c.v); }
    }
  }

  /** And in every run each call does to what each key shows and hides exactly what
      `FacesAfter` says. */
  lemma RunFaces(states: seq<State>, cap: nat, calls: seq<Call>, i: nat, k: seq<Byte>)
    requires IsRun(states, cap, calls) && i < |calls|
    ensures var c := calls[i];
            FacesOf(states[i + 1].log, k) == FacesAfter(states[i].log, cap, c.force, c.key, c.v, k)
  {
    RunRefines(states, cap, calls, i, k);
    assert IsStep(states, cap, calls, i);
    OneOffNoThird(states[i].log, calls[i].key);
    SetFaces(states[i].log, cap, calls[i].force, calls[i].key, calls[i].v, k);
  }

  // ----- such a run -----

  lemma TotalsOfFour(log: seq<Entry>)
    requires |log| == 4
    ensures Offset(log, 4) == log[0].Size() + log[1].Size() + log[2].Size() + log[3].Size()
    ensures log[0].IsKey() && log[2].IsKey() && log[3].IsValue() && !log[1].Live() ==> DeadSize(log, 4) == log[1].Size()
  {
    assert Offset(log, 4) == Offset(log, 3) + log[3].Size() && Offset(log, 3) == Offset(log, 2) + log[2].Size();
    assert Offset(log, 2) == Offset(log, 1) + log[1].Size() && Offset(log, 1) == Offset(log, 0) + log[0].Size();
    assert log[3].Live() ==> DeadSize(log, 4) == DeadSize(log, 3);
    assert log[2].Live() ==> DeadSize(log, 3) == DeadSize(log, 2);
    assert !log[1].Live() ==> DeadSize(log, 2) == DeadSize(log, 1) + log[1].Size();
    assert log[0].Live() ==> DeadSize(log, 1) == DeadSize(log, 0);
  }

  /** Two keys are set and the first is unset. */
  lemma TwoSetsAndAnUnset()
    ensures var l2 := [KeyEntry(1, A), ValueEntry(1, V1), KeyEntry(2, B), ValueEntry(2, V2)];
            && Set([], 36, false, A, V1) == Outcome(Ok, l2[..2], false)
            && Set(l2[..2], 36, false, B, V2) == Outcome(Ok, l2, false)
            && Set(l2, 36, false, A, Value([], false)) == Outcome(Ok, l2[1 := ValueEntry(1, V1).Killed()], false)
  {
    var ka, va, kb, vb := KeyEntry(1, A), ValueEntry(1, V1), KeyEntry(2, B), ValueEntry(2, V2);
    var l0: seq<Entry>, l1, l2 := [], [ka, va], [ka, va, kb, vb];
    assert l2[..2] == l1;
    assert ka.Size() == 8 && va.Size() == 8 && kb.Size() == 8 && vb.Size() == 8;
    assert KeyFrom(l0, 0, A) == 0 && LastKeyId(l0, 0) == 0 && Offset(l0, 0) == 0;
    assert Judge(l0, 36, false, A, 4) == Fits;
    assert l0 + [ka] + [va] == l1;
    assert KeyFrom(l1, 2, B) == 2 && KeyFrom(l1, 1, B) == 2 && KeyFrom(l1, 0, B) == 2;
    assert LastKeyId(l1, 2) == LastKeyId(l1, 1) == 1;
    assert Offset(l1, 1) == Offset(l1, 0) + ka.Size() && Offset(l1, 2) == Offset(l1, 1) + va.Size();
    assert Judge(l1, 36, false, B, 4) == Fits;
    assert l1 + [kb] + [vb] == l2;
    assert KeyFrom(l2, 0, A) == 0 && FindFrom(l2, 1, 1, true) == 1;
  }

  /** The log after that is compacted to B's pair alone, under A's id. */
  lemma OnlyBIsLeft()
    ensures var log := [KeyEntry(1, A), ValueEntry(1, V1).Killed(), KeyEntry(2, B), ValueEntry(2, V2)];
            CompactedLog(log, 1) == [KeyEntry(1, B), ValueEntry(1, V2)] && RenumberedId(log, 1) == 1
  {
    var ka, va, kb, vb := KeyEntry(1, A), ValueEntry(1, V1).Killed(), KeyEntry(2, B), ValueEntry(2, V2);
    var log, it := [ka, va, kb, vb], Item(B, 2, V2);
    assert log[0] == ka && log[1] == va && log[2] == kb && log[3] == vb && !va.Live();
    assert FindFrom(log, 4, 1, true) == 4 && FindFrom(log, 3, 1, true) == 4 && FindFrom(log, 2, 1, true) == 4;
    assert FindFrom(log, 1, 1, true) == 4 && FindFrom(log, 3, 2, true) == 3 && Yields(log, 2);
    assert !Yields(log, 0) && !Yields(log, 1) && !Yields(log, 3);
    assert Items(log, 2) == Items(log, 1) == Items(log, 0) == [] && Items(log, 4) == Items(log, 3) == [it];
    assert Compacted([it], 1, 1) == Compacted([it], 0, 1) + PairEntries(1, it, 1) == [KeyEntry(1, B), ValueEntry(1, V2)];
    assert NewId([it], 1, 1) == NewId([it], 0, 1) == 1;
  }

  lemma SettingAgain()
    ensures var log := [KeyEntry(1, A), ValueEntry(1, V1).Killed(), KeyEntry(2, B), ValueEntry(2, V2)];
            Set(log, 36, false, A, V3) == Outcome(Ok, [KeyEntry(1, B), ValueEntry(1, V2), ValueEntry(1, V3)], true)
  {
    var ka, va, kb, vb := KeyEntry(1, A), ValueEntry(1, V1).Killed(), KeyEntry(2, B), ValueEntry(2, V2);
    var log := [ka, va, kb, vb];
    assert log[0] == ka && log[1] == va && log[2] == kb && log[3] == vb && !va.Live();
    assert KeyFrom(log, 0, A) == 0 && FindFrom(log, 4, 1, true) == 4 && FindFrom(log, 3, 1, true) == 4;
    assert FindFrom(log, 2, 1, true) == 4 && FindFrom(log, 1, 1, true) == 4;
    assert Lookup(log, A) == None && Target(log, A) == 1;
    TotalsOfFour(log);
    OnlyBIsLeft();
    var log1 := CompactedLog(log, 1);
    assert Offset(log1, 1) == Offset(log1, 0) + log1[0].Size() && Offset(log1, 2) == Offset(log1, 1) + log1[1].Size();
    assert Judge(log, 36, false, A, 4) == Compacts;
    assert log1 + [ValueEntry(1, V3)] == [KeyEntry(1, B), ValueEntry(1, V2), ValueEntry(1, V3)];
  }

  lemma UnsettingB()
    ensures var r := Set([KeyEntry(1, B), ValueEntry(1, V2), ValueEntry(1, V3)], 36, false, B, Value([], false));
            r.status == Ok && Lookup(r.log, B) == Some(V3)
  {
    var kb, v2, v3 := KeyEntry(1, B), ValueEntry(1, V2), ValueEntry(1, V3);
    var log := [kb, v2, v3];
    assert log[0] == kb && log[1] == v2 && log[2] == v3 && WellFormed(log);
    assert KeyFrom(log, 0, B) == 0 && FindFrom(log, 1, 1, true) == 1 && FindFrom(log, 2, 1, true) == 2;
    UnsetTakesEffect(log, 36, false, B, Value([], false));
  }

  /** A region of 36 bytes, and no power cut.  A and B are set and A is unset; setting A
      again compacts, gives A's old id to B and files A's new value behind B's; unsetting B
      is reported as done, and B reads as the value that A was set to. */
  lemma UnsetShowsAnotherKeysValue()
    ensures var r1 := Set([], 36, false, A, V1); var r2 := Set(r1.log, 36, false, B, V2);
            var r3 := Set(r2.log, 36, false, A, Value([], false)); var r4 := Set(r3.log, 36, false, A, V3);
            var r5 := Set(r4.log, 36, false, B, Value([], false));
            && r1.status == r2.status == r3.status == r4.status == r5.status == Ok
            && r4.log == [KeyEntry(1, B), ValueEntry(1, V2), ValueEntry(1, V3)]
            && Lookup(r5.log, B) == Some(V3)
  {
    TwoSetsAndAnUnset();
    var l2 := [KeyEntry(1, A), ValueEntry(1, V1), KeyEntry(2, B), ValueEntry(2, V2)];
    assert l2[1 := ValueEntry(1, V1).Killed()] == [KeyEntry(1, A), ValueEntry(1, V1).Killed(), KeyEntry(2, B), ValueEntry(2, V2)];
    SettingAgain();
    UnsettingB();
  }
}
