/**
 Power cut, reset, read: what a reader sees after a set was cut short anywhere.
 */
module SysparamCrash {
  import opened Flash
  import opened Options
  import opened SysparamLog
  import opened SysparamSet
  import opened SysparamDisk
  import opened Sysparam

  /** `v` is what reading returned. */
  predicate Answers(v: Option<Value>, status: Status, data: seq<Byte>, binary: bool)
  {
    match v
    case None => status == NotFound
    case Some(value) => status == Ok && value == Value(data, binary)
  }

  /** Restarts on an image left by a set of `key` to `v` that started from `log`, and
      reads `name`.  Any other key reads as before.  The key itself reads as before or
      as the finished set would have left it, unless the set compacts (then the value
      may also be gone) or a second live value was hiding behind the old one. */
  method ReadAfterCut(image: seq<Byte>, baseAddr: nat, topAddr: nat, name: seq<Byte>, ghost a: Area,
                      ghost log: seq<Entry>, ghost cap: nat, ghost force: bool, ghost key: seq<Byte>, ghost v: Value)
    returns (status: Status, data: seq<Byte>, binary: bool)
    requires Reachable(image, a, baseAddr, topAddr)
    requires WellFormed(log) && Legal(key, v) && CutOf(DiskLog(image, a), log, cap, force, key, v)
    ensures Stored(name) != key ==> Answers(Lookup(log, Stored(name)), status, data, binary)
    ensures Stored(name) == key && !Set(log, cap, force, key, v).compacted && SecondValue(log, key).None? ==>
              || Answers(Lookup(log, key), status, data, binary)
              || Answers(Lookup(Set(log, cap, force, key, v).log, key), status, data, binary)
    ensures Stored(name) == key && Set(log, cap, force, key, v).compacted ==>
              || Answers(Lookup(log, key), status, data, binary) || Answers(None, status, data, binary)
              || Answers(Lookup(Set(log, cap, force, key, v).log, key), status, data, binary)
  {
    var chip := new Chip(image);
    var store := new Store(chip);
    status := store.Init(baseAddr, topAddr, a);
    store.ValidIsReadable();
    CutKeepsOthers(store.log, log, cap, force, key, v, Stored(name));
    if Stored(name) == key {
      if Set(log, cap, force, key, v).compacted {
        CutWhileCompacting(store.log, log, cap, force, key, v);
      } else if SecondValue(log, key).None? {
        CutIsAtomic(store.log, log, cap, force, key, v);
      }
    }
    status, data, binary := store.GetData(name);
  }

  /** Sets one name, and reads it and another one.  If the set reports success and takes
      effect, the name reads as it was set; and whatever it reports, another name of at most
      65535 bytes reads as before. */
  method SetThenGet(store: Store, name: seq<Byte>, value: seq<Byte>, binary: bool, other: seq<Byte>)
    returns (set': Status, own: (Status, seq<Byte>, bool), others: (Status, seq<Byte>, bool))
    requires store.Valid() && store.curBase != 0
    requires 1 <= |name| <= MAX_LEN && 1 <= |value| <= MAX_LEN && |other| <= MAX_LEN && other != name
    modifies store, store.chip
    ensures store.Valid()
    ensures set' == Ok <==> Lookup(old(store.log), name) == Some(Value(value, binary))
                            || HasRoom(old(store.log), old(store.Cap()), old(store.forceCompact), name, |value|)
    ensures set' == Ok && WillTakeEffect(old(store.log), old(store.Cap()), old(store.forceCompact), name, Value(value, binary)) ==>
              own == (Ok, value, binary)
    ensures Answers(Lookup(old(store.log), other), others.0, others.1, others.2)
  {
    ghost var log0, cap, force, v := store.log, store.Cap(), store.forceCompact, Value(value, binary);
    store.ValidIsReadable();
    SetKeepsOthers(log0, cap, force, name, v, other);
    if Set(log0, cap, force, name, v).status == Ok { SetTakesEffect(log0, cap, force, name, v); }
    set' := store.SetData(name, value, binary);
    store.ValidIsReadable();
    InUse(store);
    var status, data, flag := store.GetData(name);
    own := (status, data, flag);
    status, data, flag := store.GetData(other);
    others := (status, data, flag);
  }

  lemma InUse(store: Store)
    requires store.Valid()
    ensures store.curBase != 0
  {
  }
}
