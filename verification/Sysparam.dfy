/**
 The sysparam store: the code that walks, extends and compacts the log in flash.
 Flash reads and writes are assumed to succeed, and memory allocation too.
 */
module Sysparam {
  import opened Flash
  import opened Options
  import opened SysparamLog
  import opened SysparamCompact
  import opened SysparamSet
  import opened SysparamDisk
  import opened SysparamFlash
  import opened SysparamScan

  datatype Snapshot = Snapshot(area: Area, curBase: nat, altBase: nat, log: seq<Entry>, mem: seq<Byte>, cuts: set<seq<Byte>>, home: seq<Byte>)

  class Store {
    const chip: Chip
    var curBase: nat
    var altBase: nat
    var endAddr: nat
    var regionSize: nat
    var forceCompact: bool
    ghost var area: Area
    ghost var log: seq<Entry>
    ghost var home: seq<Byte>  // the chip as it was found; outside the area it stays so

    constructor (chip: Chip)
      ensures this.chip == chip && curBase == 0
    {
      this.chip := chip;
      curBase, altBase, endAddr, regionSize, forceCompact := 0, 0, 0, 0, false;
    }

    ghost predicate Valid()
      reads this`area, this`log, this`curBase, this`altBase, this`regionSize, this`endAddr, this`home, chip
    {
      && Sound(chip.mem, area)
      && log == DiskLog(chip.mem, area)
      && curBase == Selected(chip.mem, area) && altBase == area.Other(curBase)
      && regionSize == area.Size()
      && endAddr == AddrOf(curBase, log, |log|)
      && OnlyIn(chip.mem, home, area)
    }

    /** The log that a reset would now find becomes the current one. */
    ghost method Settle(log': seq<Entry>)
      requires Recovers(chip.mem, area, log') && curBase == Selected(chip.mem, area) && altBase == area.Other(curBase)
      requires regionSize == area.Size() && endAddr == AddrOf(curBase, log', |log'|) && OnlyIn(chip.mem, home, area)
      modifies this`log
      ensures Valid() && log == log' && Recovers(chip.mem, area, log)
    {
      log := log';
    }

    // ----- writing -----

    /** The first two writes of an entry: its header, marked invalid, and its payload. */
    method BeginEntry(addr: nat, tag: Tag, payload: seq<Byte>)
      requires addr % 4 == 0 && AllErased(chip.mem, addr, addr + EntrySize(|payload|))
      requires tag.alive && !tag.invalid && tag.id <= MAX_KEY_ID && |payload| <= MAX_LEN
      modifies this`endAddr, chip
      ensures AgreeOutside(chip.mem, old(chip.mem), addr, addr + EntrySize(|payload|))
      ensures chip.mem[addr..addr + 4] == EntryHeader(EncodeTag(tag.(invalid := true)), |payload|)
      ensures chip.mem[addr + 4..addr + 4 + |payload|] == payload
      ensures endAddr == if old(endAddr) == addr then addr + EntrySize(|payload|) else old(endAddr)
      ensures old(chip.cuts) <= chip.cuts
      ensures forall s :: s in chip.cuts ==> s in old(chip.cuts) || MidWrite(s, old(chip.mem), addr, tag, |payload|)
    {
      ghost var mem0, cuts0 := chip.mem, chip.cuts;
      BeginHeader(addr, tag, |payload|);
      ghost var mem1 := chip.mem;
      ErasedIsProgrammable(chip.mem, addr + 4, payload);
      var ok := WriteAndVerify(chip, addr + 4, payload);
      assert ok;
      forall s | s in chip.cuts ensures s in cuts0 || MidWrite(s, mem0, addr, tag, |payload|) {
        if s !in cuts0 { UnfinishedBecause(mem1, s, addr, tag, |payload|); }
      }
      assert chip.mem[addr..addr + 4] == mem1[addr..addr + 4];
    }

    /** The first of these writes. */
    method BeginHeader(addr: nat, tag: Tag, len: nat)
      requires addr % 4 == 0 && AllErased(chip.mem, addr, addr + EntrySize(len))
      requires tag.alive && !tag.invalid && tag.id <= MAX_KEY_ID && len <= MAX_LEN
      modifies this`endAddr, chip
      ensures AgreeOutside(chip.mem, old(chip.mem), addr, addr + 4)
      ensures chip.mem[addr..addr + 4] == EntryHeader(EncodeTag(tag.(invalid := true)), len)
      ensures endAddr == if old(endAddr) == addr then addr + EntrySize(len) else old(endAddr)
      ensures chip.cuts == old(chip.cuts) + {chip.mem}
    {
      InOnePage(addr);
      var header := EntryHeader(EncodeTag(tag.(invalid := true)), len);
      ErasedIsProgrammable(chip.mem, addr, header);
      var ok := WriteAndVerify(chip, addr, header);
      assert ok;
      if endAddr == addr { endAddr := endAddr + EntrySize(len); }
    }

    /** Writes the header marked invalid, then the payload, then the header again
        with the mark cleared. */
    method WriteEntry(addr: nat, tag: Tag, payload: seq<Byte>)
      requires addr % 4 == 0 && AllErased(chip.mem, addr, addr + EntrySize(|payload|))
      requires tag.alive && !tag.invalid && tag.id <= MAX_KEY_ID && |payload| <= MAX_LEN
      modifies this`endAddr, chip
      ensures AgreeOutside(chip.mem, old(chip.mem), addr, addr + EntrySize(|payload|))
      ensures EntryAt(chip.mem, addr, Entry(tag, payload))
      ensures endAddr == if old(endAddr) == addr then addr + EntrySize(|payload|) else old(endAddr)
      ensures old(chip.cuts) <= chip.cuts
      ensures forall s :: s in chip.cuts ==>
                s in old(chip.cuts) || s == chip.mem || MidWrite(s, old(chip.mem), addr, tag, |payload|)
    {
      BeginEntry(addr, tag, payload);
      ghost var mem2 := chip.mem;
      InOnePage(addr);
      var header := EntryHeader(EncodeTag(tag), |payload|);
      ValidatesInPlace(chip.mem, addr, tag, |payload|);
      var ok := WriteAndVerify(chip, addr, header);
      assert ok;
      HeaderReads(chip.mem, addr, EncodeTag(tag), |payload|);
      assert chip.mem[addr + 4..addr + 4 + |payload|] == mem2[addr + 4..addr + 4 + |payload|];
    }

    // ----- reading -----

    ghost predicate InRange()
      reads this`curBase, this`regionSize, chip
    {
      12 <= regionSize && curBase + regionSize <= |chip.mem|
    }

    ghost predicate Readable()
      reads this`curBase, this`regionSize, this`log, chip
    {
      InRange() && Holds(chip.mem, curBase, regionSize, log) && WellFormed(log)
    }

    lemma ValidIsReadable()
      requires Valid()
      ensures Readable()
    {
      BaseFacts(area, chip.mem, curBase);
    }

    /** Walks on to the next entry that matches, or to the end.  `truncated` reports an
        entry too long to fit, which the source records in the force_compact flag. */
    method FindEntry(ctx: Context, id: nat, wantValue: bool) returns (status: Status, c: Context, truncated: bool)
      requires InRange() && curBase <= ctx.addr <= curBase + regionSize
      ensures var r := Scan(chip.mem, curBase, curBase + regionSize, ctx, id, wantValue);
              && truncated == r.truncated
              && status == (if r.found || id == ENTRY_ID_END then Ok else NotFound)
              && c == if status.Ok? then r.c else r.c.(len := 0, tag := NO_TAG)
    {
      c, truncated := ctx, false;
      var limit := curBase + regionSize;
      while true
        invariant curBase <= c.addr <= limit
        invariant Scan(chip.mem, curBase, limit, c, id, wantValue) == Scan(chip.mem, curBase, limit, ctx, id, wantValue)
        decreases limit - c.addr
      {
        match Move(chip.mem, curBase, limit, c) {
          case TooLong =>
            truncated := true;
            break;
          case AtEnd(end) =>
            c := end;
            break;
          case AtEntry(entry) =>
            c := Tally(entry);
            if Matches(Entry(c.tag, []), id, wantValue) { return Ok, c, false; }
        }
      }
      if id == ENTRY_ID_END { return Ok, c, truncated; }
      c := c.(len := 0, tag := NO_TAG);
      status := NotFound;
    }

    /** The same walk in terms of the log; it cannot meet a truncated entry. */
    method Seek(ctx: Context, id: nat, wantValue: bool, ghost pos: int, ghost extra: nat)
      returns (status: Status, c: Context)
      requires Readable() && StandsAt(ctx, curBase, log, pos, extra) && pos < |log|
      ensures var p := FindFrom(log, pos + 1, id, wantValue);
              if p < |log| then status == Ok && StandsAt(c, curBase, log, p, extra)
              else
                && status == (if id == ENTRY_ID_END then Ok else NotFound)
                && c.addr == AddrOf(curBase, log, |log|) && Counted(c, log, |log|, extra)
                && (id != ENTRY_ID_END ==> StandsAt(c, curBase, log, |log|, extra))
    {
      StandingIsFramed(chip.mem, curBase, regionSize, log, ctx, pos, extra);
      ScanFinds(chip.mem, curBase, regionSize, log, ctx, pos, extra, id, wantValue);
      var truncated;
      status, c, truncated := FindEntry(ctx, id, wantValue);
    }

    function Start(): (c: Context)
      reads this
      ensures StandsAt(c, curBase, log, -1, 0)
    {
      Context(curBase, NO_TAG, 0, 0, 0, 0)
    }

    function Payload(c: Context): (r: seq<Byte>)
      reads chip
      requires c.addr + 4 + c.len <= |chip.mem|
    {
      chip.mem[c.addr + 4..c.addr + 4 + c.len]
    }

    lemma PayloadIs(c: Context, pos: int, extra: nat)
      requires Readable() && StandsAt(c, curBase, log, pos, extra) && 0 <= pos < |log|
      ensures c.addr + 4 + c.len <= |chip.mem| && Payload(c) == log[pos].payload
      ensures c.tag == log[pos].tag
    {
      assert TileAt(chip.mem, curBase, log, pos);
    }

    /** Finds the live key entry named `key`. */
    method FindKey(key: seq<Byte>) returns (status: Status, c: Context)
      requires Readable()
      ensures status == if HasKey(log, key) then Ok else NotFound
      ensures StandsAt(c, curBase, log, KeyFrom(log, 0, key), 0)
    {
      c := Start();
      ghost var pos := -1;
      while true
        invariant StandsAt(c, curBase, log, pos, 0) && pos < |log|
        invariant forall k :: 0 <= k <= pos ==> !IsKeyNamed(log[k], key)
        decreases |log| - pos
      {
        ghost var p := FindFrom(log, pos + 1, ENTRY_ID_ANY, false);
        NoKeyBetween(log, pos + 1, key);
        status, c := Seek(c, ENTRY_ID_ANY, false, pos, 0);
        pos := p;
        if status != Ok { return; }
        PayloadIs(c, pos, 0);
        if c.len == |key| && Payload(c) == key { return; }
      }
    }

    /** Reads the value of the key entry that `c` stands on. */
    method ReadValue(c: Context, ghost pos: nat) returns (v: Option<Value>)
      requires Readable() && pos < |log| && log[pos].IsKey() && StandsAt(c, curBase, log, pos, 0)
      ensures v == ContentAt(log, ValueOf(log, pos))
    {
      assert KeyOk(log[pos]);
      var status, at := Seek(c, c.tag.id, true, pos, 0);
      if status != Ok { return None; }
      PayloadIs(at, ValueOf(log, pos), 0);
      v := Some(Value(Payload(at), at.tag.binary));
    }

    /** Reads the value of `key`. */
    method GetData(key: seq<Byte>) returns (status: Status, data: seq<Byte>, binary: bool)
      requires curBase != 0 ==> Readable()
      ensures status == if curBase == 0 then ErrNoInit else if Lookup(log, Stored(key)).Some? then Ok else NotFound
      ensures status == Ok ==> Lookup(log, Stored(key)) == Some(Value(data, binary))
    {
      data, binary := [], false;
      if curBase == 0 { return ErrNoInit, data, binary; }
      var c;
      status, c := FindKey(Stored(key));
      if status != Ok { return; }
      var v := ReadValue(c, KeyFrom(log, 0, Stored(key)));
      match v {
        case None => status := NotFound;
        case Some(value) => data, binary := value.data, value.binary;
      }
    }

    /** Steps an iteration to the next key. */
    method NextKey(ctx: Context, ghost pos: int) returns (status: Status, c: Context, ghost next: int)
      requires Readable() && StandsAt(ctx, curBase, log, pos, 0) && pos < |log|
      ensures status == Ok || status == NotFound
      ensures status == Ok ==>
                && pos < next < |log| && StandsAt(c, curBase, log, next, 0) && log[next].IsKey()
                && Items(log, next) == Items(log, pos + 1)
                && c.addr + 4 + c.len <= |chip.mem| && Payload(c) == log[next].payload && c.tag == log[next].tag
      ensures status == NotFound ==> Items(log, |log|) == Items(log, pos + 1)
    {
      next := FindFrom(log, pos + 1, ENTRY_ID_ANY, false);
      ItemsSkip(log, pos + 1, next);
      status, c := Seek(ctx, ENTRY_ID_ANY, false, pos, 0);
      if status == Ok { PayloadIs(c, next, 0); }
    }

    /** Steps an iteration to the next key that has a value. */
    method IterNext(ctx: Context, ghost pos: int)
      returns (status: Status, c: Context, item: Item, ghost next: int)
      requires Readable() && StandsAt(ctx, curBase, log, pos, 0) && pos < |log|
      ensures status == Ok || status == NotFound
      ensures status == Ok ==>
                && pos < next < |log| && StandsAt(c, curBase, log, next, 0)
                && Items(log, next + 1) == Items(log, pos + 1) + [item]
                && c.tag.id == item.id
      ensures status == NotFound ==> Items(log, |log|) == Items(log, pos + 1)
    {
      c, next := ctx, pos;
      item := Item([], 0, Value([], false));
      while true
        invariant StandsAt(c, curBase, log, next, 0) && pos <= next < |log|
        invariant Items(log, next + 1) == Items(log, pos + 1)
        decreases |log| - next
      {
        status, c, next := NextKey(c, next);
        if status != Ok { return; }
        var v := ReadValue(c, next);
        if v.Some? {
          item := Item(Payload(c), c.tag.id, v.value);
          return;
        }
      }
    }

    // ----- appending -----

    /** Appends an entry to the log held in the region at `base`. */
    method AppendEntry(addr: nat, tag: Tag, payload: seq<Byte>, ghost base: nat, ghost size: nat, ghost l: seq<Entry>)
      requires Holds(chip.mem, base, size, l) && base % 4 == 0 && addr == AddrOf(base, l, |l|)
      requires addr + EntrySize(|payload|) <= base + size
      requires tag.alive && !tag.invalid && tag.id <= MAX_KEY_ID && |payload| <= MAX_LEN
      modifies this`endAddr, chip
      ensures Holds(chip.mem, base, size, l + [Entry(tag, payload)])
      ensures Offset(l + [Entry(tag, payload)], |l| + 1) == Offset(l, |l|) + EntrySize(|payload|)
      ensures AgreeOutside(chip.mem, old(chip.mem), addr, addr + EntrySize(|payload|))
      ensures endAddr == if old(endAddr) == addr then addr + EntrySize(|payload|) else old(endAddr)
      ensures old(chip.cuts) <= chip.cuts
      ensures forall s :: s in chip.cuts ==>
                s in old(chip.cuts) || s == chip.mem || Torn(s, old(chip.mem), base, size, l, tag, |payload|)
    {
      ghost var mem0, cuts0 := chip.mem, chip.cuts;
      AddrAligned(base, l, |l|);
      WriteEntry(addr, tag, payload);
      HoldsAppend(mem0, chip.mem, base, size, l, Entry(tag, payload));
      forall s | s in chip.cuts
        ensures s in cuts0 || s == chip.mem || Torn(s, mem0, base, size, l, tag, |payload|)
      {
        if s !in cuts0 && s != chip.mem {
          assert MidWrite(s, mem0, addr, tag, |payload|);
          HoldsAppend(mem0, s, base, size, l, TornEntry(s, addr, tag, |payload|));
        }
      }
    }

    // ----- compacting -----

    /** Writes one pair to the region at `base`, which holds `l`; the value is left
        out if it is the one about to be replaced. */
    method CopyPair(addr: nat, id: nat, item: Item, target: int, ghost base: nat, ghost size: nat, ghost l: seq<Entry>)
      returns (next: nat)
      requires Holds(chip.mem, base, size, l) && base % 4 == 0 && addr == AddrOf(base, l, |l|)
      requires var l' := l + PairEntries(id, item, target); AddrOf(base, l', |l'|) <= base + size
      requires endAddr < addr || base + size < endAddr
      requires 1 <= id <= MAX_KEY_ID && |item.key| <= MAX_LEN && |item.value.data| <= MAX_LEN
      modifies this`endAddr, chip
      ensures var l' := l + PairEntries(id, item, target);
              Holds(chip.mem, base, size, l') && next == AddrOf(base, l', |l'|)
      ensures endAddr == old(endAddr)
      ensures Below(addr, base, size, chip.mem, old(chip.mem))
      ensures old(chip.cuts) <= chip.cuts
      ensures forall s :: s in chip.cuts ==> s in old(chip.cuts) || Below(addr, base, size, s, old(chip.mem))
    {
      ghost var e, v := KeyEntry(id, item.key), ValueEntry(id, item.value);
      PairOffsets(l, id, item, target);
      AppendEntry(addr, KeyTag(id), item.key, base, size, l);
      ghost var mem1, cuts1 := chip.mem, chip.cuts;
      next := addr + EntrySize(|item.key|);
      if item.id != target {
        AppendEntry(next, ValueTag(id, item.value.binary), item.value.data,
                    base, size, l + [e]);
        next := next + EntrySize(|item.value.data|);
        assert Below(addr, base, size, chip.mem, old(chip.mem));
      }
    }

    /** The pairs among the first `n` entries have been copied; since `mem0` only the region
        at `newBase` has changed. */
    ghost predicate Copying(newBase: nat, keyId: int, mem0: seq<Byte>, cuts0: set<seq<Byte>>, end0: nat,
                            n: nat, addr: nat, count: nat, newId: int)
      reads this`curBase, this`regionSize, this`log, this`endAddr, chip
    {
      && Apart(newBase) && endAddr == end0
      && Copied(chip.mem, newBase, regionSize, log, n, keyId, addr, count, newId)
      && InRegion(chip.mem, mem0, newBase, regionSize) && cuts0 <= chip.cuts
      && forall s :: s in chip.cuts ==> s in cuts0 || InRegion(s, mem0, newBase, regionSize)
    }

    /** One round of the copying loop. */
    method CopyNext(addr: nat, count: nat, item: Item, newId: int, ghost m: nat, ghost n: nat, ghost keyId: int, ghost newBase: nat,
                    ghost mem0: seq<Byte>, ghost cuts0: set<seq<Byte>>, ghost end0: nat)
      returns (addr': nat, count': nat, newId': int)
      requires Copying(newBase, keyId, mem0, cuts0, end0, m, addr, count, newId)
      requires m < n <= |log| && Items(log, n) == Items(log, m) + [item]
      modifies this`endAddr, chip
      ensures Copying(newBase, keyId, mem0, cuts0, end0, n, addr', count', newId')
    {
      ghost var mem1, cuts1 := chip.mem, chip.cuts;
      addr', count', newId' := CopyOne(addr, count, item, newId, m, n, keyId, newBase);
      forall s | s in chip.cuts ensures s in cuts0 || InRegion(s, mem0, newBase, regionSize) {
        if s !in cuts1 { assert InRegion(s, mem1, newBase, regionSize); }
      }
    }

    method CopyOne(addr: nat, count: nat, item: Item, newId: int, ghost m: nat, ghost n: nat, ghost keyId: int, ghost newBase: nat)
      returns (addr': nat, count': nat, newId': int)
      requires Apart(newBase) && m < n <= |log| && Items(log, n) == Items(log, m) + [item]
      requires Copied(chip.mem, newBase, regionSize, log, m, keyId, addr, count, newId)
      modifies this`endAddr, chip
      ensures Apart(newBase) && endAddr == old(endAddr)
      ensures Copied(chip.mem, newBase, regionSize, log, n, keyId, addr', count', newId')
      ensures InRegion(chip.mem, old(chip.mem), newBase, regionSize)
      ensures old(chip.cuts) <= chip.cuts
      ensures forall s :: s in chip.cuts ==> s in old(chip.cuts) || InRegion(s, old(chip.mem), newBase, regionSize)
    {
      ghost var items := Items(log, m);
      ghost var l := Compacted(items, |items|, keyId);
      ghost var mem0 := chip.mem;
      CopyStep(log, m, n, item, keyId);
      count' := count + 1;
      addr' := CopyPair(addr, count', item, newId, newBase, regionSize, l);
      newId' := if item.id == newId then count' else newId;
      HoldsFrame(mem0, chip.mem, curBase, regionSize, log);
    }

    /** The store can be read, and the region at `newBase` is clear of it. */
    ghost predicate Apart(newBase: nat)
      reads this`curBase, this`regionSize, this`log, this`endAddr, chip
    {
      && Readable() && newBase % 4 == 0 && newBase + regionSize <= |chip.mem|
      && curBase + REGION_HEADER_SIZE <= endAddr <= curBase + regionSize
      && (newBase + regionSize <= curBase || curBase + regionSize <= newBase)
    }

    /** Copies every live pair to the erased region at `newBase`. */
    method CopyPairs(newBase: nat, keyId: int) returns (addr: nat, count: nat, newId: int)
      requires Apart(newBase) && Holds(chip.mem, newBase, regionSize, [])
      modifies this`endAddr, chip
      ensures Apart(newBase) && endAddr == old(endAddr)
      ensures Copied(chip.mem, newBase, regionSize, log, |log|, keyId, addr, count, newId)
      ensures InRegion(chip.mem, old(chip.mem), newBase, regionSize)
      ensures old(chip.cuts) <= chip.cuts
      ensures forall s :: s in chip.cuts ==> s in old(chip.cuts) || InRegion(s, old(chip.mem), newBase, regionSize)
    {
      addr, count, newId := newBase + REGION_HEADER_SIZE, 0, keyId;
      var iter := Start();
      ghost var pos, mem0, cuts0, end0 := -1, chip.mem, chip.cuts, endAddr;
      var status := Ok;
      while status == Ok
        invariant status == Ok ==> pos < |log| && StandsAt(iter, curBase, log, pos, 0)
        invariant Copying(newBase, keyId, mem0, cuts0, end0, if status == Ok then pos + 1 else |log|, addr, count, newId)
        decreases status == Ok, |log| - pos
      {
        status, iter, addr, count, newId, pos := CopyMore(iter, addr, count, newId, pos, keyId, newBase, mem0, cuts0, end0);
      }
    }

    /** Copies the next pair, if there is one. */
    method CopyMore(iter: Context, addr: nat, count: nat, newId: int, ghost pos: int, ghost keyId: int, ghost newBase: nat,
                    ghost mem0: seq<Byte>, ghost cuts0: set<seq<Byte>>, ghost end0: nat)
      returns (status: Status, iter': Context, addr': nat, count': nat, newId': int, ghost next: int)
      requires -1 <= pos < |log| && StandsAt(iter, curBase, log, pos, 0)
      requires Copying(newBase, keyId, mem0, cuts0, end0, pos + 1, addr, count, newId)
      modifies this`endAddr, chip
      ensures status == Ok ==>
                && pos < next < |log| && StandsAt(iter', curBase, log, next, 0)
                && Copying(newBase, keyId, mem0, cuts0, end0, next + 1, addr', count', newId')
      ensures status != Ok ==> Copying(newBase, keyId, mem0, cuts0, end0, |log|, addr', count', newId')
    {
      var item;
      status, iter', item, next := IterNext(iter, pos);
      addr', count', newId' := addr, count, newId;
      if status == Ok {
        addr', count', newId' := CopyNext(addr, count, item, newId, pos + 1, next + 1, keyId, newBase, mem0, cuts0, end0);
      }
    }

    /** Erases the other region and fills it with the compacted log. */
    method EraseAndCopy(keyId: int) returns (addr: nat, count: nat, newId: int)
      requires Valid()
      modifies this`endAddr, chip
      ensures endAddr == old(endAddr)
      ensures var log2 := CompactedLog(log, keyId);
              && Staged(chip.mem, area, curBase, log, log2)
              && addr == AddrOf(altBase, log2, |log2|) && count == LastKeyId(log2, |log2|)
      ensures newId == RenumberedId(log, keyId) && OnlyIn(chip.mem, home, area)
      ensures old(chip.cuts) <= chip.cuts
      ensures forall s :: s in chip.cuts ==> s in old(chip.cuts) || Recovers(s, area, log)
    {
      ghost var mem0, cuts0 := chip.mem, chip.cuts;
      EraseOther();
      ghost var mem1 := chip.mem;
      addr, count, newId := CopyPairs(altBase, keyId);
      CutsBeforeSwitch(chip.cuts, cuts0, mem0, mem1, area, curBase);
      CopiedIsStaged(mem0, mem1, chip.mem, area, log, keyId, addr, count, newId);
      OnlyInRegion(chip.mem, mem0, home, area, altBase);
    }

    /** Erases the other region. */
    method EraseOther()
      requires Valid()
      modifies chip
      ensures Apart(altBase) && Holds(chip.mem, altBase, regionSize, [])
      ensures MidFormat(chip.mem, old(chip.mem), altBase, area.sectors) && AllErased(chip.mem, altBase, altBase + regionSize)
      ensures old(chip.cuts) <= chip.cuts
      ensures forall s :: s in chip.cuts ==> s in old(chip.cuts) || MidFormat(s, old(chip.mem), altBase, area.sectors)
    {
      ghost var mem0 := chip.mem;
      BaseFacts(area, mem0, curBase);
      BaseFacts(area, mem0, altBase);
      ValidIsReadable();
      FormatRegion(chip, altBase, regionSize / SECTOR);
      HoldsNothing(chip.mem, altBase, regionSize);
      HoldsFrame(mem0, chip.mem, curBase, regionSize, log);
    }

    /** Switches to the other region, which a reset would now find. */
    method TakeOver(addr: nat, ghost log2: seq<Entry>)
      requires Recovers(chip.mem, area, log2) && Selected(chip.mem, area) == altBase && area.Other(altBase) == curBase
      requires regionSize == area.Size() && addr == AddrOf(altBase, log2, |log2|) && OnlyIn(chip.mem, home, area)
      modifies this
      ensures Valid() && area == old(area) && home == old(home) && regionSize == old(regionSize) && log == log2
      ensures curBase == old(altBase) && altBase == old(curBase) && endAddr == addr && !forceCompact
    {
      altBase, curBase, endAddr, forceCompact := curBase, altBase, addr, false;
      log := log2;
    }

    /** Compacts into the other region, then makes that one the active region.  The
        value of `keyId` is left out, and its new id is returned. */
    method Compact(keyId: int) returns (c: Context, newId: int)
      requires Valid()
      modifies this, chip
      ensures Valid() && area == old(area) && home == old(home) && curBase == old(altBase) && altBase == old(curBase) && !forceCompact
      ensures log == CompactedLog(old(log), keyId) && newId == RenumberedId(old(log), keyId)
      ensures c == Context(endAddr, NO_TAG, 0, 0, 0, LastKeyId(log, |log|))
      ensures Holds(chip.mem, altBase, regionSize, old(log))
      ensures old(chip.cuts) <= chip.cuts
      ensures forall s :: s in chip.cuts ==>
                s in old(chip.cuts) || Recovers(s, area, old(log)) || Recovers(s, area, log)
    {
      var addr, count;
      addr, count, newId := EraseAndCopy(keyId);
      ghost var log2 := CompactedLog(log, keyId);
      ghost var mem2 := chip.mem;
      SwitchRegions(chip, altBase, curBase, area, log, log2);
      TakeOver(addr, log2);
      c := Context(addr, NO_TAG, 0, 0, 0, count);
    }

    // ----- setting -----

    /** Appends one entry to the log of the active region. */
    method AppendToLog(tag: Tag, payload: seq<Byte>)
      requires Valid() && endAddr + EntrySize(|payload|) <= curBase + regionSize
      requires tag.alive && !tag.invalid && tag.id <= MAX_KEY_ID && |payload| <= MAX_LEN
      requires WellFormed(log + [Entry(tag, payload)])
      modifies this`endAddr, this`log, chip
      ensures Valid() && log == old(log) + [Entry(tag, payload)]
      ensures endAddr == old(endAddr) + EntrySize(|payload|)
      ensures InRegion(chip.mem, old(chip.mem), curBase, regionSize)
      ensures old(chip.cuts) <= chip.cuts
      ensures forall s :: s in chip.cuts ==>
                || s in old(chip.cuts) || Recovers(s, area, log)
                || (Sound(s, area) && DeadAppended(DiskLog(s, area), old(log)))
    {
      ghost var mem0, cuts0, log0 := chip.mem, chip.cuts, log;
      BaseFacts(area, mem0, curBase);
      AppendEntry(endAddr, tag, payload, curBase, regionSize, log);
      Grow(mem0, Entry(tag, payload));
      TornCuts(chip.cuts, cuts0, chip.mem, mem0, area, tag, |payload|);
    }

    /** The active region has got another entry since `mem0`. */
    ghost method Grow(mem0: seq<Byte>, e: Entry)
      requires Sound(mem0, area) && OnlyIn(mem0, home, area) && log == DiskLog(mem0, area) && WellFormed(log + [e])
      requires curBase == Selected(mem0, area) && altBase == area.Other(curBase) && regionSize == area.Size()
      requires InRegion(chip.mem, mem0, curBase, regionSize) && Holds(chip.mem, curBase, regionSize, log + [e])
      requires endAddr == AddrOf(curBase, log + [e], |log| + 1)
      modifies this`log
      ensures Valid() && log == old(log) + [e] && Recovers(chip.mem, area, log)
    {
      SoundLocal(mem0, chip.mem, area, log + [e]);
      OnlyInRegion(chip.mem, mem0, home, area, curBase);
      log := log + [e];
    }

    method WriteValue(id: nat, ghost key: seq<Byte>, v: Value)
      requires Valid() && 1 <= id <= MAX_KEY_ID && |v.data| <= MAX_LEN
      requires endAddr + EntrySize(|v.data|) <= curBase + regionSize
      modifies this`endAddr, this`log, chip
      ensures Valid() && log == Put(old(log), id, key, v)
      ensures InRegion(chip.mem, old(chip.mem), curBase, regionSize)
      ensures old(chip.cuts) <= chip.cuts
      ensures forall s :: s in chip.cuts ==>
                s in old(chip.cuts) || (Sound(s, area) && Midway(DiskLog(s, area), old(log), id, key, v))
    {
      AppendOther(log, ValueEntry(id, v), key);
      AppendToLog(ValueTag(id, v.binary), v.data);
    }

    /** Writes the key entry and the value entry of a new key. */
    method WriteNewPair(n: nat, key: seq<Byte>, v: Value)
      requires Valid() && Legal(key, v) && !HasKey(log, key) && n == LastKeyId(log, |log|) + 1 <= MAX_KEY_ID
      requires endAddr + EntrySize(|key|) + EntrySize(|v.data|) <= curBase + regionSize
      modifies this`endAddr, this`log, chip
      ensures Valid() && log == Put(old(log), -1, key, v)
      ensures InRegion(chip.mem, old(chip.mem), curBase, regionSize)
      ensures old(chip.cuts) <= chip.cuts
      ensures forall s :: s in chip.cuts ==>
                s in old(chip.cuts) || (Sound(s, area) && Midway(DiskLog(s, area), old(log), -1, key, v))
    {
      ghost var log0, cuts0 := log, chip.cuts;
      AppendNewKey(log, n, key, key);
      AppendToLog(KeyTag(n), key);
      ghost var cuts1 := chip.cuts;
      KeyCuts(cuts1, cuts0, area, log0, n, key, v);
      WriteSecond(n, key, v, log0);
    }

    /** Writes the value of a key that has just been written. */
    method WriteSecond(n: nat, key: seq<Byte>, v: Value, ghost log0: seq<Entry>)
      requires Valid() && log == log0 + [KeyEntry(n, key)] && n == LastKeyId(log0, |log0|) + 1 <= MAX_KEY_ID && |v.data| <= MAX_LEN
      requires endAddr + EntrySize(|v.data|) <= curBase + regionSize
      modifies this`endAddr, this`log, chip
      ensures Valid() && log == Put(log0, -1, key, v)
      ensures InRegion(chip.mem, old(chip.mem), curBase, regionSize)
      ensures old(chip.cuts) <= chip.cuts
      ensures forall s :: s in chip.cuts ==>
                s in old(chip.cuts) || (Sound(s, area) && Midway(DiskLog(s, area), log0, -1, key, v))
    {
      ghost var cuts1 := chip.cuts;
      WriteValue(n, key, v);
      MidwayValue(log, log0, -1, n, key, v);
      forall s | s in chip.cuts
        ensures s in cuts1 || (Sound(s, area) && Midway(DiskLog(s, area), log0, -1, key, v))
      {
        if s !in cuts1 { MidwayValue(DiskLog(s, area), log0, -1, n, key, v); }
      }
    }

    /** Writes the key entry, if the key is new, and the value entry. */
    method WritePair(keyId: int, maxKeyId: nat, key: seq<Byte>, v: Value)
      requires Valid() && Legal(key, v) && MeantFor(log, keyId, key) && keyId >= -1
      requires keyId < 0 ==> maxKeyId == LastKeyId(log, |log|)
      requires endAddr + EntrySize(|v.data|) + (if keyId < 0 then EntrySize(|key|) else 0) <= curBase + regionSize
      modifies this`endAddr, this`log, chip
      ensures Valid() && log == Put(old(log), keyId, key, v)
      ensures InRegion(chip.mem, old(chip.mem), curBase, regionSize)
      ensures old(chip.cuts) <= chip.cuts
      ensures forall s :: s in chip.cuts ==>
                s in old(chip.cuts) || (Sound(s, area) && Midway(DiskLog(s, area), old(log), keyId, key, v))
    {
      if keyId < 0 { WriteNewPair(maxKeyId + 1, key, v); } else { WriteValue(keyId, key, v); }
    }

    ghost function Cap(): (r: nat)
      reads this`regionSize
    {
      if REGION_HEADER_SIZE <= regionSize then regionSize - REGION_HEADER_SIZE else 0
    }

    /** What is left for entries. */
    method FreeSpace() returns (free: nat)
      requires Valid()
      ensures free + Offset(log, |log|) == Cap()
    {
      ValidIsReadable();
      free := curBase + regionSize - endAddr;
    }

    /** Scans the rest of the log, so that the counts in the context are complete. */
    method FinishScan(ctx: Context, ghost pos: nat, ghost extra: nat) returns (c: Context, truncated: bool)
      requires Readable() && StandsAt(ctx, curBase, log, pos, extra)
      ensures Counted(c, log, |log|, extra) && truncated == (pos == |log| && Offset(log, |log|) + 4 > Cap())
    {
      StandingIsFramed(chip.mem, curBase, regionSize, log, ctx, pos, extra);
      ScanRest(chip.mem, curBase, regionSize, log, ctx, pos, extra);
      var status;
      status, c, truncated := FindEntry(ctx, ENTRY_ID_END, false);
    }

    /** The state between making room and writing: what is in the log, under which id
        the value goes, and what is still to be deleted. */
    ghost predicate Roomy(key: seq<Byte>, v: Value, id: int, maxKeyId: nat)
      reads this`area, this`log, this`curBase, this`altBase, this`regionSize, this`endAddr, this`home, chip
    {
      && Valid() && MeantFor(log, id, key) && id >= -1
      && (id < 0 ==> maxKeyId == LastKeyId(log, |log|))
      && endAddr + EntrySize(|v.data|) + (if id < 0 then EntrySize(|key|) else 0) <= curBase + regionSize
    }

    /** Compacts on behalf of a set of `key`. */
    method CompactFor(key: seq<Byte>, keyId: int) returns (c: Context, id: int)
      requires Valid() && keyId == Target(log, key)
      modifies this, chip
      ensures CompactedFor(old(Now()), key, keyId, c, id)
      ensures old(chip.cuts) <= chip.cuts
      ensures forall s :: s in chip.cuts ==>
                s in old(chip.cuts) || Recovers(s, area, old(log)) || Recovers(s, area, log)
    {
      ghost var log0 := log;
      c, id := Compact(keyId);
      RenumberedSign(log0, key);
      KeyIdBounds(log0, key);
      if IdsLeft(log0, key) { RenumberedMeant(log0, key); }
    }

    ghost function Now(): (p: Snapshot)
      reads this`area, this`log, this`curBase, this`altBase, this`home, chip
    {
      Snapshot(area, curBase, altBase, log, chip.mem, chip.cuts, home)
    }

    /** Everything a compaction on behalf of `key` leaves behind. */
    ghost predicate CompactedFor(p: Snapshot, key: seq<Byte>, keyId: int, c: Context, id: int)
      reads this, chip
    {
      && Valid() && area == p.area && home == p.home && curBase == p.altBase && altBase == p.curBase && !forceCompact
      && log == CompactedLog(p.log, keyId) && id == RenumberedId(p.log, keyId)
      && (id < 0 <==> keyId < 0) && id >= -1 && c.unused == 0 && c.maxKeyId == LastKeyId(log, |log|)
      && (IdsLeft(p.log, key) ==> MeantFor(log, id, key))
      && Holds(chip.mem, altBase, regionSize, p.log)
    }

    /** Scans on to the end, and decides whether compacting may make room for `needed`. */
    method MayHelp(ctx: Context, ghost key: seq<Byte>, needed: nat, free: nat) returns (c: Context, helps: bool)
      requires Valid() && StandsAt(ctx, curBase, log, ValueIndex(log, key), Reclaimable(log, key) - DeadSize(log, |log|))
      modifies this`forceCompact
      ensures forceCompact == (old(forceCompact) || (!helps && Brimful(log, Cap(), key)))
      ensures Valid() && (helps <==> needed <= free + Reclaimable(log, key) || Balance(log, |log|) > 0)
    {
      ValidIsReadable();
      var truncated;
      c, truncated := FinishScan(ctx, ValueIndex(log, key), Reclaimable(log, key) - DeadSize(log, |log|));
      helps := needed <= free + c.compactable || c.unused > 0;
      if truncated && !helps { forceCompact := true; }
    }

    method TryCompacting(ctx: Context, keyId: int, key: seq<Byte>, needed: nat, free: nat) returns (c: Context, id: int, compacted: bool)
      requires Valid() && keyId == Target(log, key)
      requires StandsAt(ctx, curBase, log, ValueIndex(log, key), Reclaimable(log, key) - DeadSize(log, |log|))
      modifies this, chip
      ensures compacted == (needed <= free + Reclaimable(old(log), key) || Balance(old(log), |old(log)|) > 0)
      ensures if compacted then CompactedFor(old(Now()), key, keyId, c, id) else Valid() && Now() == old(Now()) && id == keyId
      ensures !compacted ==> forceCompact == (old(forceCompact) || Brimful(old(log), old(Cap()), key))
      ensures regionSize == old(regionSize) && old(chip.cuts) <= chip.cuts
      ensures forall s :: s in chip.cuts ==>
                s in old(chip.cuts) || Recovers(s, area, old(log)) || Recovers(s, area, CompactedLog(old(log), keyId))
    {
      id := keyId;
      c, compacted := MayHelp(ctx, key, needed, free);
      if compacted { c, id := CompactFor(key, keyId); }
    }

    /** Compacts if the new entries do not fit and there is hope that it helps. */
    method MakeSpace(ctx: Context, keyId: int, key: seq<Byte>, len: nat)
      returns (status: Status, c: Context, id: int, compacted: bool)
      requires Valid() && keyId == Target(log, key)
      requires StandsAt(ctx, curBase, log, ValueIndex(log, key), Reclaimable(log, key) - DeadSize(log, |log|))
      modifies this, chip
      ensures compacted == CompactsForSpace(old(log), Cap(), key, len)
      ensures status == if Needed(old(log), key, len) + Offset(log, |log|) > Cap() then ErrFull else Ok
      ensures if compacted then CompactedFor(old(Now()), key, keyId, c, id) else Valid() && Now() == old(Now()) && id == keyId
      ensures !compacted && status == Ok ==> c == ctx
      ensures !compacted ==> forceCompact == (old(forceCompact) || (status == ErrFull && Brimful(old(log), old(Cap()), key)))
      ensures old(chip.cuts) <= chip.cuts
      ensures forall s :: s in chip.cuts ==>
                s in old(chip.cuts) || Recovers(s, area, old(log)) || Recovers(s, area, CompactedLog(old(log), keyId))
    {
      KeyIdBounds(log, key);
      var free := FreeSpace();
      var needed := EntrySize(len) + if keyId < 0 then EntrySize(|key|) else 0;
      ghost var log0, cap := log, Cap();
      SpaceGuard(log0, cap, key, len, free, needed);
      c, id, compacted, status := ctx, keyId, false, Ok;
      if needed > free { status, c, id, compacted := Squeeze(ctx, keyId, key, needed, free); }
    }

    /** The new entries do not fit: compacts if there is hope that it helps, and sees. */
    method Squeeze(ctx: Context, keyId: int, key: seq<Byte>, needed: nat, free: nat)
      returns (status: Status, c: Context, id: int, compacted: bool)
      requires Valid() && keyId == Target(log, key)
      requires StandsAt(ctx, curBase, log, ValueIndex(log, key), Reclaimable(log, key) - DeadSize(log, |log|))
      modifies this, chip
      ensures compacted == (needed <= free + Reclaimable(old(log), key) || Balance(old(log), |old(log)|) > 0)
      ensures status == if needed + Offset(log, |log|) > Cap() then ErrFull else Ok
      ensures if compacted then CompactedFor(old(Now()), key, keyId, c, id) else Valid() && Now() == old(Now()) && id == keyId
      ensures !compacted ==> forceCompact == (old(forceCompact) || Brimful(old(log), old(Cap()), key))
      ensures regionSize == old(regionSize) && old(chip.cuts) <= chip.cuts
      ensures forall s :: s in chip.cuts ==>
                s in old(chip.cuts) || Recovers(s, area, old(log)) || Recovers(s, area, CompactedLog(old(log), keyId))
    {
      c, id, compacted := TryCompacting(ctx, keyId, key, needed, free);
      var left := FreeSpace();
      status := if needed > left then ErrFull else Ok;
    }

    /** Compacts if a new key needs an id and none is left, or if an earlier scan met
        damage.  In the latter case the caller's note of the old value is not dropped. */
    method MakeIds(ctx: Context, keyId: int, key: seq<Byte>)
      returns (status: Status, c: Context, id: int, compacted: bool, dropOld: bool)
      requires Valid()
      requires (keyId < 0 && ctx.maxKeyId >= MAX_KEY_ID && ctx.unused > 0) || forceCompact ==> keyId == Target(log, key)
      modifies this, chip
      ensures status == if keyId < 0 && ctx.maxKeyId >= MAX_KEY_ID && ctx.unused <= 0 then ErrFull else Ok
      ensures compacted == (status == Ok && ((keyId < 0 && ctx.maxKeyId >= MAX_KEY_ID) || old(forceCompact)))
      ensures if compacted then CompactedFor(old(Now()), key, keyId, c, id)
              else Valid() && Now() == old(Now()) && id == keyId && c == ctx && !dropOld && forceCompact == old(forceCompact)
      ensures old(chip.cuts) <= chip.cuts
      ensures forall s :: s in chip.cuts ==>
                s in old(chip.cuts) || Recovers(s, area, old(log)) || Recovers(s, area, CompactedLog(old(log), keyId))
    {
      c, id, compacted, dropOld := ctx, keyId, false, false;
      if keyId < 0 && ctx.maxKeyId >= MAX_KEY_ID {
        if ctx.unused <= 0 { return ErrFull, c, id, compacted, dropOld; }
        c, id := CompactFor(key, keyId);
        compacted, dropOld := true, true;
      } else if forceCompact {
        c, id := CompactFor(key, keyId);
        compacted := true;
      }
      status := Ok;
    }

    /** What making room from `p` leaves, under each verdict. */
    ghost predicate RoomMade(p: Snapshot, r: Verdict, key: seq<Byte>, v: Value, keyId: int, oldAddr: nat,
                             status: Status, c: Context, id: int, old': nat, force: bool)
      reads this, chip
    {
      && status == (if r == Fits || r == Compacts then Ok else ErrFull)
      && (if r == Compacts || r == FullAnyway then CompactedFor(p, key, keyId, c, id) && (old' == 0 || old' == oldAddr)
          else Valid() && Now() == p && id == keyId && old' == oldAddr && forceCompact == (force || (r == Full && Brimful(p.log, Cap(), key))))
      && (status == Ok ==> Roomy(key, v, id, c.maxKeyId))
    }

    /** Makes sure that the value, and the key if it is new, can be appended. */
    method MakeRoom(ctx: Context, keyId: int, oldAddr: nat, key: seq<Byte>, v: Value)
      returns (status: Status, c: Context, id: int, old': nat)
      requires Valid() && Legal(key, v) && v.data != [] && Lookup(log, key) != Some(v)
      requires keyId == Target(log, key)
      requires StandsAt(ctx, curBase, log, ValueIndex(log, key), Reclaimable(log, key) - DeadSize(log, |log|))
      modifies this, chip
      ensures var r := Judge(old(log), old(Cap()), old(forceCompact), key, |v.data|);
              RoomMade(old(Now()), r, key, v, keyId, oldAddr, status, c, id, old', old(forceCompact))
      ensures old(chip.cuts) <= chip.cuts
      ensures forall s :: s in chip.cuts ==>
                s in old(chip.cuts) || Recovers(s, area, old(log)) || Recovers(s, area, CompactedLog(old(log), keyId))
    {
      ghost var p, cap, force := Now(), Cap(), forceCompact;
      ghost var r := Judge(log, cap, force, key, |v.data|);
      assert keyId < 0 ==> ctx.maxKeyId == LastKeyId(log, |log|) && ctx.unused == Balance(log, |log|);
      var compacted;
      status, c, id, compacted := MakeSpace(ctx, keyId, key, |v.data|);
      old' := if compacted then 0 else oldAddr;
      if compacted {
        // nothing unused is left to reclaim, and the force-compact flag is clear
        if status == Ok && id < 0 && c.maxKeyId >= MAX_KEY_ID { status := ErrFull; }
        CompactedRoom(p, cap, force, key, v, keyId, oldAddr, status, c, id);
      } else if status == Ok {
        status, c, id, old' := MakeRoomById(ctx, keyId, oldAddr, key, v);
      } else {
        assert r == Full;
      }
      assert RoomMade(p, r, key, v, keyId, oldAddr, status, c, id, old', force);
    }

    lemma CompactedRoom(p: Snapshot, cap: nat, force: bool, key: seq<Byte>, v: Value, keyId: int, oldAddr: nat,
                        status: Status, c: Context, id: int)
      requires WellFormed(p.log) && keyId == Target(p.log, key) && cap == Cap()
      requires CompactsForSpace(p.log, cap, key, |v.data|) && CompactedFor(p, key, keyId, c, id)
      requires status == if Needed(p.log, key, |v.data|) + Offset(log, |log|) > cap || (id < 0 && c.maxKeyId >= MAX_KEY_ID)
                         then ErrFull else Ok
      ensures RoomMade(p, Judge(p.log, cap, force, key, |v.data|), key, v, keyId, oldAddr, status, c, id, 0, force)
    {
      KeyIdBounds(p.log, key);
      JudgeFacts(p.log, cap, force, key, |v.data|);
      if status == Ok { CompactedIsRoomy(p, key, v, keyId, c, id); }
    }

    /** The same, when there is space enough. */
    method MakeRoomById(ctx: Context, keyId: int, oldAddr: nat, key: seq<Byte>, v: Value)
      returns (status: Status, c: Context, id: int, old': nat)
      requires Valid() && Legal(key, v) && keyId == Target(log, key)
      requires Needed(log, key, |v.data|) + Offset(log, |log|) <= Cap()
      requires keyId < 0 ==> ctx.maxKeyId == LastKeyId(log, |log|) && ctx.unused == Balance(log, |log|)
      modifies this, chip
      ensures var r := Judge(old(log), old(Cap()), old(forceCompact), key, |v.data|);
              RoomMade(old(Now()), r, key, v, keyId, oldAddr, status, c, id, old', old(forceCompact))
      ensures old(chip.cuts) <= chip.cuts
      ensures forall s :: s in chip.cuts ==>
                s in old(chip.cuts) || Recovers(s, area, old(log)) || Recovers(s, area, CompactedLog(old(log), keyId))
    {
      ghost var p := Now();
      KeyIdBounds(log, key);
      JudgeFacts(log, Cap(), forceCompact, key, |v.data|);
      var compacted, drop;
      status, c, id, compacted, drop := MakeIds(ctx, keyId, key);
      old' := if drop then 0 else oldAddr;
      if compacted {
        CompactedIsRoomy(p, key, v, keyId, c, id);
      } else if status == Ok {
        TargetMeant(log, key);
      }
    }

    lemma CompactedIsRoomy(p: Snapshot, key: seq<Byte>, v: Value, keyId: int, c: Context, id: int)
      requires CompactedFor(p, key, keyId, c, id) && IdsLeft(p.log, key) && (keyId < 0 <==> !HasKey(p.log, key))
      requires Needed(p.log, key, |v.data|) + Offset(log, |log|) <= Cap()
      ensures Roomy(key, v, id, c.maxKeyId)
    {
      ValidIsReadable();
    }

    /** Deletes entry `j` of the log in the region at `base`, which may be the stale one. */
    method DeleteOld(addr: nat, ghost base: nat, ghost l: seq<Entry>, ghost j: nat)
      requires Valid() && area.IsBase(base) && Holds(chip.mem, base, regionSize, l) && (base == curBase ==> l == log)
      requires j < |l| && addr == AddrOf(base, l, j)
      modifies this`log, chip
      ensures Valid() && log == if base == curBase then Kill(old(log), j) else old(log)
      ensures old(chip.cuts) <= chip.cuts
      ensures forall s :: s in chip.cuts ==> s in old(chip.cuts) || Recovers(s, area, log)
    {
      KillIn(chip, addr, area, base, l, j);
      Settle(if base == curBase then Kill(log, j) else log);
    }

    /** Finds the key and its current value. */
    method Locate(key: seq<Byte>) returns (status: Status, c: Context, keyId: int, oldAddr: nat, current: Option<Value>)
      requires Valid()
      ensures keyId == Target(log, key) && current == Lookup(log, key)
      ensures status == if current.Some? then Ok else NotFound
      ensures oldAddr == if current.Some? then AddrOf(curBase, log, ValueIndex(log, key)) else 0
      ensures StandsAt(c, curBase, log, ValueIndex(log, key), 0)
      ensures current.Some? ==> c.len == |current.value.data|
    {
      ValidIsReadable();
      keyId, oldAddr, current := -1, 0, None;
      status, c := FindKey(key);
      if status == Ok {
        ghost var pos := KeyFrom(log, 0, key);
        assert KeyOk(log[pos]);
        keyId := c.tag.id;
        status, c := Seek(c, keyId, true, pos, 0);
        if status == Ok {
          PayloadIs(c, ValueIndex(log, key), 0);
          oldAddr := c.addr;
          current := Some(Value(Payload(c), c.tag.binary));
        }
      }
    }

    /** Writes the pair into the room that was made, then deletes the old value. */
    method Replace(id: int, maxKeyId: nat, oldAddr: nat, key: seq<Byte>, v: Value,
                   ghost base: nat, ghost l: seq<Entry>, ghost j: nat)
      requires Roomy(key, v, id, maxKeyId) && Legal(key, v)
      requires area.IsBase(base) && Holds(chip.mem, base, regionSize, l) && (base == curBase ==> l == log)
      requires oldAddr != 0 ==> j < |l| && oldAddr == AddrOf(base, l, j)
      modifies this`endAddr, this`log, chip
      ensures Valid()
      ensures var log1 := Put(old(log), id, key, v);
              log == if oldAddr != 0 && base == curBase then Kill(log1, j) else log1
      ensures old(chip.cuts) <= chip.cuts
      ensures forall s :: s in chip.cuts ==>
                || s in old(chip.cuts) || Recovers(s, area, log)
                || (Sound(s, area) && Midway(DiskLog(s, area), old(log), id, key, v))
    {
      ghost var mem0 := chip.mem;
      WritePair(id, maxKeyId, key, v);
      if oldAddr != 0 { DeleteMoved(oldAddr, mem0, base, l, j); }
    }

    /** Deletes entry `j` of the log `l` in the region at `base`, which since `mem0` may
        have been appended to. */
    method DeleteMoved(addr: nat, ghost mem0: seq<Byte>, ghost base: nat, ghost l: seq<Entry>, ghost j: nat)
      requires Valid() && area.Fits(mem0) && area.IsBase(base) && Holds(mem0, base, regionSize, l)
      requires InRegion(chip.mem, mem0, curBase, regionSize) && (base == curBase ==> l <= log)
      requires j < |l| && addr == AddrOf(base, l, j)
      modifies this`log, chip
      ensures Valid() && j < |l| && (base == curBase ==> j < |old(log)|)
      ensures log == if base == curBase then Kill(old(log), j) else old(log)
      ensures old(chip.cuts) <= chip.cuts
      ensures forall s :: s in chip.cuts ==> s in old(chip.cuts) || Recovers(s, area, log)
    {
      ghost var l' := if base == curBase then log else l;
      OldStillThere(mem0, chip.mem, area, curBase, base, l, log, j);
      DeleteOld(addr, base, l', j);
    }

    ghost predicate CutFrom(s: seq<Byte>, log0: seq<Entry>, cap: nat, force: bool, key: seq<Byte>, v: Value)
      reads this`area
    {
      Sound(s, area) && CutOf(DiskLog(s, area), log0, cap, force, key, v)
    }

    /** Room has been made for a set of `key` that started from `log0` at `base0`:
        either nothing had to be done, or the log has been compacted. */
    ghost predicate Ready(base0: nat, log0: seq<Entry>, r: Verdict, key: seq<Byte>, v: Value, id: int, maxKeyId: nat, oldAddr: nat)
      reads this`area, this`log, this`curBase, this`altBase, this`regionSize, this`endAddr, this`home, chip
    {
      && Roomy(key, v, id, maxKeyId) && area.IsBase(base0) && Holds(chip.mem, base0, regionSize, log0)
      && (oldAddr != 0 ==> ValueIndex(log0, key) < |log0| && oldAddr == AddrOf(base0, log0, ValueIndex(log0, key)))
      && match r
         case Fits =>
           && curBase == base0 && log == log0 && id == Target(log0, key)
           && (oldAddr == 0 ==> ValueIndex(log0, key) == |log0|)
         case Compacts =>
           && curBase != base0
           && log == CompactedLog(log0, Target(log0, key)) && id == RenumberedId(log0, Target(log0, key))
         case _ => false
    }

    /** Writes the new pair and deletes the old value. */
    method Commit(id: int, maxKeyId: nat, oldAddr: nat, key: seq<Byte>, v: Value,
                  ghost base0: nat, ghost log0: seq<Entry>, ghost cap: nat, ghost force: bool)
      requires WellFormed(log0) && Legal(key, v) && v.data != [] && Lookup(log0, key) != Some(v)
      requires Ready(base0, log0, Judge(log0, cap, force, key, |v.data|), key, v, id, maxKeyId, oldAddr)
      modifies this`endAddr, this`log, chip
      ensures Valid() && log == Judged(log0, Judge(log0, cap, force, key, |v.data|), key, v)
      ensures old(chip.cuts) <= chip.cuts
      ensures forall s :: s in chip.cuts ==> s in old(chip.cuts) || CutFrom(s, log0, cap, force, key, v)
    {
      ghost var log1, cuts1 := log, chip.cuts;
      Replace(id, maxKeyId, oldAddr, key, v, base0, log0, ValueIndex(log0, key));
      CommittedLog(log0, cap, force, key, v, log1, id, log);
      LateCuts(chip.cuts, cuts1, log0, cap, force, key, v, log1, id, log);
    }

    lemma LateCuts(cuts: set<seq<Byte>>, cuts1: set<seq<Byte>>, log0: seq<Entry>, cap: nat, force: bool, key: seq<Byte>, v: Value,
                   base: seq<Entry>, id: int, log': seq<Entry>)
      requires WellFormed(log0) && MeantFor(base, id, key) && v.data != [] && Lookup(log0, key) != Some(v)
      requires var r, t := Judge(log0, cap, force, key, |v.data|), Target(log0, key);
               || (r == Compacts && base == CompactedLog(log0, t) && id == RenumberedId(log0, t))
               || (r == Fits && base == log0 && id == t)
      requires CutOf(log', log0, cap, force, key, v)
      requires forall s :: s in cuts ==>
                 s in cuts1 || Recovers(s, area, log') || (Sound(s, area) && Midway(DiskLog(s, area), base, id, key, v))
      ensures forall s :: s in cuts ==> s in cuts1 || CutFrom(s, log0, cap, force, key, v)
    {
      forall s | s in cuts && s !in cuts1 ensures CutFrom(s, log0, cap, force, key, v) {
        if !Recovers(s, area, log') { CutWhileReplacing(DiskLog(s, area), log0, cap, force, key, v, base, id); }
      }
    }

    /** Makes room, and accounts for the power cuts in the meantime. */
    method Prepare(ctx: Context, keyId: int, addr: nat, key: seq<Byte>, v: Value, ghost r: Verdict)
      returns (status: Status, id: int, maxKeyId: nat, oldAddr: nat)
      requires Valid() && Legal(key, v) && v.data != [] && Lookup(log, key) != Some(v)
      requires keyId == Target(log, key) && r == Judge(log, Cap(), forceCompact, key, |v.data|)
      requires addr == if Lookup(log, key).Some? then AddrOf(curBase, log, ValueIndex(log, key)) else 0
      requires StandsAt(ctx, curBase, log, ValueIndex(log, key), Reclaimable(log, key) - DeadSize(log, |log|))
      modifies this, chip
      ensures Valid() && area == old(area) && home == old(home)
      ensures status == if r == Fits || r == Compacts then Ok else ErrFull
      ensures status == Ok ==> Ready(old(curBase), old(log), r, key, v, id, maxKeyId, oldAddr)
      ensures status != Ok ==> log == Judged(old(log), r, key, v)
      ensures forceCompact == (r != Compacts && r != FullAnyway && (old(forceCompact) || (r == Full && Brimful(old(log), old(Cap()), key))))
      ensures old(chip.cuts) <= chip.cuts
      ensures forall s :: s in chip.cuts ==>
                s in old(chip.cuts) || CutFrom(s, old(log), old(Cap()), old(forceCompact), key, v)
    {
      ghost var log0, cap, force := log, Cap(), forceCompact;
      ghost var cuts0, p := chip.cuts, Now();
      var c;
      status, c, id, oldAddr := MakeRoom(ctx, keyId, addr, key, v);
      maxKeyId := c.maxKeyId;
      if status == Ok { RoomIsReady(p, key, v, keyId, addr, c, id, oldAddr, r); }
      forall s | s in chip.cuts ensures s in cuts0 || CutFrom(s, log0, cap, force, key, v) {
        if s !in cuts0 { EarlyCut(s, log0, cap, force, key, v); }
      }
    }

    lemma EarlyCut(s: seq<Byte>, log0: seq<Entry>, cap: nat, force: bool, key: seq<Byte>, v: Value)
      requires v.data != [] && Lookup(log0, key) != Some(v)
      requires || Recovers(s, area, log0)
               || (Recovers(s, area, CompactedLog(log0, Target(log0, key)))
                   && Judge(log0, cap, force, key, |v.data|) in {Compacts, FullAnyway})
      ensures CutFrom(s, log0, cap, force, key, v)
    {
      CutBeforeReplacing(log0, cap, force, key, v);
    }

    /** Sets the key to a value that differs from the current one. */
    method SetNew(ctx: Context, keyId: int, addr: nat, key: seq<Byte>, v: Value, ghost r: Verdict) returns (status: Status)
      requires Valid() && Legal(key, v) && v.data != [] && Lookup(log, key) != Some(v)
      requires keyId == Target(log, key) && r == Judge(log, Cap(), forceCompact, key, |v.data|)
      requires addr == if Lookup(log, key).Some? then AddrOf(curBase, log, ValueIndex(log, key)) else 0
      requires StandsAt(ctx, curBase, log, ValueIndex(log, key), Reclaimable(log, key) - DeadSize(log, |log|))
      modifies this, chip
      ensures Valid() && area == old(area) && home == old(home)
      ensures status == if r == Fits || r == Compacts then Ok else ErrFull
      ensures log == Judged(old(log), r, key, v)
      ensures forceCompact == (r != Compacts && r != FullAnyway && (old(forceCompact) || (r == Full && Brimful(old(log), old(Cap()), key))))
      ensures old(chip.cuts) <= chip.cuts
      ensures forall s :: s in chip.cuts ==>
                s in old(chip.cuts) || CutFrom(s, old(log), old(Cap()), old(forceCompact), key, v)
    {
      ghost var log0, base0, cap, force := log, curBase, Cap(), forceCompact;
      var id, maxKeyId, oldAddr;
      status, id, maxKeyId, oldAddr := Prepare(ctx, keyId, addr, key, v, r);
      if status == Ok { Commit(id, maxKeyId, oldAddr, key, v, base0, log0, cap, force); }
    }

    lemma RoomIsReady(p: Snapshot, key: seq<Byte>, v: Value, keyId: int, addr: nat, c: Context, id: int, oldAddr: nat, r: Verdict)
      requires Sound(p.mem, p.area) && p.log == DiskLog(p.mem, p.area) && p.curBase == Selected(p.mem, p.area)
      requires p.altBase == p.area.Other(p.curBase) && keyId == Target(p.log, key) && (r == Fits || r == Compacts)
      requires addr == if Lookup(p.log, key).Some? then AddrOf(p.curBase, p.log, ValueIndex(p.log, key)) else 0
      requires r == Compacts ==> CompactedFor(p, key, keyId, c, id) && (oldAddr == 0 || oldAddr == addr)
      requires r == Fits ==> Now() == p && id == keyId && oldAddr == addr
      requires Roomy(key, v, id, c.maxKeyId)
      ensures Ready(p.curBase, p.log, r, key, v, id, c.maxKeyId, oldAddr)
    {
    }

    /** Deletes the current value, if there is one. */
    method Unset(addr: nat, ghost key: seq<Byte>, ghost v: Value)
      requires Valid() && v.data == []
      requires addr == if Lookup(log, key).Some? then AddrOf(curBase, log, ValueIndex(log, key)) else 0
      modifies this`log, chip
      ensures Valid() && log == Set(old(log), Cap(), forceCompact, key, v).log
      ensures old(chip.cuts) <= chip.cuts
      ensures forall s :: s in chip.cuts ==> s in old(chip.cuts) || CutFrom(s, old(log), Cap(), forceCompact, key, v)
    {
      if addr != 0 { DeleteOld(addr, curBase, log, ValueIndex(log, key)); }
    }

    method SetStored(key: seq<Byte>, v: Value) returns (status: Status)
      requires Valid() && Legal(key, v)
      modifies this, chip
      ensures Valid() && area == old(area) && home == old(home)
      ensures var r := Set(old(log), old(Cap()), old(forceCompact), key, v); status == r.status && log == r.log
      ensures forceCompact == ForceAfter(old(log), old(Cap()), old(forceCompact), key, v)
      ensures old(chip.cuts) <= chip.cuts
      ensures forall s :: s in chip.cuts ==>
                s in old(chip.cuts) || CutFrom(s, old(log), old(Cap()), old(forceCompact), key, v)
    {
      var c, keyId, oldAddr, current;
      status, c, keyId, oldAddr, current := Locate(key);
      if v.data == [] {
        Unset(oldAddr, key, v);
      } else if current == Some(v) {
        status := Ok;
      } else {
        if current.Some? { c := c.(compactable := c.compactable + EntrySize(c.len)); }
        status := SetNew(c, keyId, oldAddr, key, v, Judge(log, Cap(), forceCompact, key, |v.data|));
      }
    }

    /** Sets `name` to `value`, or removes it if the value is empty. */
    method SetData(name: seq<Byte>, value: seq<Byte>, binary: bool) returns (status: Status)
      requires curBase != 0 ==> Valid()
      modifies this, chip
      ensures var key, v := Stored(name), Value(value, binary);
              if old(curBase) == 0 || key == [] || |value| > MAX_LEN then
                && status == (if old(curBase) == 0 then ErrNoInit else ErrBadValue)
                && unchanged(this) && unchanged(chip)
              else
                var r := Set(old(log), old(Cap()), old(forceCompact), key, v);
                && Valid() && area == old(area) && home == old(home) && status == r.status && log == r.log
                && forceCompact == ForceAfter(old(log), old(Cap()), old(forceCompact), key, v)
                && (v.data != [] ==>
                      (status == Ok <==> Lookup(old(log), key) == Some(v) || HasRoom(old(log), old(Cap()), old(forceCompact), key, |value|)))
                && OnlyIn(chip.mem, old(chip.mem), area) && old(chip.cuts) <= chip.cuts
                && forall s :: s in chip.cuts ==>
                     s in old(chip.cuts) || CutFrom(s, old(log), old(Cap()), old(forceCompact), key, v)
    {
      var key, v := Stored(name), Value(value, binary);
      if curBase == 0 { return ErrNoInit; }
      if |key| == 0 || |value| > MAX_LEN { return ErrBadValue; }
      if v.data != [] { SetSucceeds(log, Cap(), forceCompact, key, v); }
      status := SetStored(key, v);
    }

    // ----- starting up -----

    /** Looks for the first sector that starts with the magic. */
    method FindMagic(from: nat, top: nat) returns (status: Status, addr: nat)
      requires from % SECTOR == 0
      ensures status == Ok || status == NotFound || status == ErrIo
      ensures status == Ok ==> from <= addr < top && addr % SECTOR == 0 && MagicAt(chip.mem, addr)
      ensures status == Ok ==> forall x :: from <= x < addr && x % SECTOR == 0 ==> !MagicAt(chip.mem, x)
      ensures status != Ok ==>
                forall x :: from <= x < top && x + REGION_HEADER_SIZE <= |chip.mem| && x % SECTOR == 0 ==> !MagicAt(chip.mem, x)
      ensures status == NotFound ==> forall x :: from <= x < top && x % SECTOR == 0 ==> x + REGION_HEADER_SIZE <= |chip.mem|
      ensures status == ErrIo ==> exists x :: from <= x < top && x % SECTOR == 0 && |chip.mem| < x + REGION_HEADER_SIZE
    {
      addr := from;
      while addr < top
        invariant from <= addr && addr % SECTOR == 0
        invariant forall x :: from <= x < addr && x % SECTOR == 0 ==> x + REGION_HEADER_SIZE <= |chip.mem| && !MagicAt(chip.mem, x)
      {
        if addr + REGION_HEADER_SIZE > |chip.mem| { return ErrIo, addr; }
        if MagicAt(chip.mem, addr) { return Ok, addr; }
        addr := addr + SECTOR;
      }
      status := NotFound;
    }

    /** Recreates a missing stale region. */
    method Repair(addr1: nat, addr0: nat, sectors: nat, ghost a: Area)
      requires addr1 % SECTOR == 0 && addr0 % SECTOR == 0 && addr1 + sectors * SECTOR <= |chip.mem|
      requires addr0 + sectors * SECTOR == addr1 || addr1 + sectors * SECTOR == addr0
      requires 1 <= sectors <= MAX_SECTORS && 0 < addr0 && 0 < addr1 && addr0 + sectors * SECTOR <= |chip.mem|
      requires a == Area(if addr0 < addr1 then addr0 else addr1, sectors)
      modifies chip
      ensures AgreeOutside(chip.mem, old(chip.mem), addr1, addr1 + sectors * SECTOR)
      ensures old(chip.cuts) <= chip.cuts
      ensures Sound(old(chip.mem), a) && Selected(old(chip.mem), a) == addr0 ==>
                && Recovers(chip.mem, a, DiskLog(old(chip.mem), a)) && Selected(chip.mem, a) == addr0
                && forall s :: s in chip.cuts ==> s in old(chip.cuts) || Recovers(s, a, DiskLog(old(chip.mem), a))
    {
      ghost var mem0, cuts0 := chip.mem, chip.cuts;
      FormatRegion(chip, addr1, sectors);
      ghost var mem1, cuts1 := chip.mem, chip.cuts;
      WriteRegionHeader(chip, addr1, addr0, false, a);
      if Sound(mem0, a) && Selected(mem0, a) == addr0 {
        forall s | s in cuts1 ensures s in cuts0 || Recovers(s, a, DiskLog(mem0, a)) {
          if s !in cuts0 { BeforeSwitch(mem0, mem1, s, a, addr0); }
        }
        SoundFrame(mem0, chip.mem, a);
      }
    }

    /** Scans the active region to its end. */
    method FindEnd(ghost l: seq<Entry>) returns (end: nat, truncated: bool)
      requires InRange()
      ensures Holds(chip.mem, curBase, regionSize, l) && WellFormed(l) ==> end == AddrOf(curBase, l, |l|) && !truncated
    {
      var status, c;
      status, c, truncated := FindEntry(Context(curBase, NO_TAG, 0, 0, 0, 0), ENTRY_ID_END, false);
      end := c.addr;
      if Holds(chip.mem, curBase, regionSize, l) && WellFormed(l) { ScanFromStart(chip.mem, curBase, regionSize, l); }
    }

    /** Takes up the area whose active region is at `cur`, and finds the end of its log. */
    method Adopt(cur: nat, alt: nat, size: nat, ghost a: Area, ghost mem0: seq<Byte>, ghost cuts0: set<seq<Byte>>)
      requires 12 <= size && cur + size <= |chip.mem|
      modifies this
      ensures Mended(a, mem0, cuts0) && cur == Selected(mem0, a) && alt == a.Other(cur) && size == a.Size() ==>
                Restored(a, mem0, cuts0)
    {
      regionSize, curBase, altBase, forceCompact := size, cur, alt, false;
      area, home := a, chip.mem;
      ghost var l := if a.Fits(chip.mem) then DiskLog(chip.mem, a) else [];
      endAddr, forceCompact := FindEnd(l);
      if Sound(chip.mem, a) && cur == Selected(chip.mem, a) && alt == a.Other(cur) && size == a.Size() { Settle(l); }
    }

    /** A reset would find what it would have found in `mem`, and only the area has changed. */
    ghost predicate Mended(a: Area, mem: seq<Byte>, cuts: set<seq<Byte>>)
      reads chip
    {
      && a.Fits(mem) && Recovers(chip.mem, a, DiskLog(mem, a)) && Selected(chip.mem, a) == Selected(mem, a)
      && OnlyIn(chip.mem, mem, a) && cuts <= chip.cuts
      && forall s :: s in chip.cuts ==> s in cuts || Recovers(s, a, DiskLog(mem, a))
    }

    /** Looks for the other header of the area that has one at `addr0`. */
    method FindTwin(addr0: nat, ghost a: Area) returns (status: Status, addr1: nat, sectors: nat, found: bool)
      requires addr0 % SECTOR == 0 && MagicAt(chip.mem, addr0)
      ensures Located(chip.mem, a, addr0) ==> status == Ok && addr1 == a.Other(addr0) && sectors == a.sectors
      ensures StaleAlone(chip.mem, a, addr0) ==> status == ErrCorrupt
      ensures status != NotFound
      ensures status == Ok ==>
                && 1 <= sectors <= MAX_SECTORS && 0 < addr0 && 0 < addr1 && found == MagicAt(chip.mem, addr1)
                && (addr0 + sectors * SECTOR == addr1 || addr1 + sectors * SECTOR == addr0)
                && addr0 + sectors * SECTOR <= |chip.mem| && addr1 + sectors * SECTOR <= |chip.mem|
    {
      var flags0 := Half(chip.mem, addr0 + 4);
      sectors := SectorsIn(flags0);
      addr1, found := 0, false;
      TwinIs(chip.mem, a, addr0);
      var twin := Twin(addr0, flags0);
      if twin < 0 || twin + REGION_HEADER_SIZE > |chip.mem| { return ErrIo, addr1, sectors, found; }
      addr1 := twin;
      found := MagicAt(chip.mem, addr1);
      if found && IsSecond(flags0) == IsSecond(Half(chip.mem, addr1 + 4)) { return ErrCorrupt, addr1, sectors, found; }
      if !found && !IsActive(flags0) { return ErrCorrupt, addr1, sectors, found; }
      if sectors == 0 || addr0 == 0 || addr1 == 0
         || addr1 + sectors * SECTOR > |chip.mem| || addr0 + sectors * SECTOR > |chip.mem| { return ErrIo, addr1, sectors, found; }
      status := Ok;
    }

    /** Opens the area one of whose headers is at `addr0`.  A stale header on its own is
        not trusted. */
    method Open(addr0: nat, ghost a: Area) returns (status: Status)
      requires addr0 % SECTOR == 0 && MagicAt(chip.mem, addr0)
      modifies this, chip
      ensures Located(old(chip.mem), a, addr0) ==> status == Ok && Restored(a, old(chip.mem), old(chip.cuts))
      ensures StaleAlone(old(chip.mem), a, addr0) ==> status == ErrCorrupt && unchanged(this) && unchanged(chip)
      ensures status != NotFound
    {
      var addr1, sectors, found;
      status, addr1, sectors, found := FindTwin(addr0, a);
      if status != Ok { return; }
      ghost var mem0, cuts0 := chip.mem, chip.cuts;
      var active := IsActive(Half(chip.mem, addr0 + 4));
      Mend(addr0, addr1, sectors, found, a);
      Adopt(if active then addr0 else addr1, if active then addr1 else addr0, sectors * SECTOR, a, mem0, cuts0);
    }

    /** Recreates the twin of the header at `addr0` if it is missing, inside the area only. */
    method Mend(addr0: nat, addr1: nat, sectors: nat, found: bool, ghost a: Area)
      requires addr0 % SECTOR == 0 && 1 <= sectors <= MAX_SECTORS && 0 < addr0 && 0 < addr1
      requires addr0 + sectors * SECTOR == addr1 || addr1 + sectors * SECTOR == addr0
      requires addr0 + sectors * SECTOR <= |chip.mem| && addr1 + sectors * SECTOR <= |chip.mem|
      modifies chip
      ensures |chip.mem| == |old(chip.mem)| && 12 <= sectors * SECTOR
      ensures Located(old(chip.mem), a, addr0) && addr1 == a.Other(addr0) && sectors == a.sectors && found == MagicAt(old(chip.mem), addr1) ==>
                Mended(a, old(chip.mem), old(chip.cuts))
    {
      ghost var mem0 := chip.mem;
      SectorFacts(addr0, sectors);
      if !found { Repair(addr1, addr0, sectors, Area(if addr0 < addr1 then addr0 else addr1, sectors)); }
    }

    /** The area is taken up as `mem` had it; a power cut in the meantime leaves the same log. */
    ghost predicate Restored(a: Area, mem: seq<Byte>, cuts: set<seq<Byte>>)
      requires a.Fits(mem)
      reads this, chip
    {
      && Valid() && area == a && !forceCompact
      && log == DiskLog(mem, a) && curBase == Selected(mem, a)
      && home == chip.mem && OnlyIn(chip.mem, mem, a) && cuts <= chip.cuts
      && forall s :: s in chip.cuts ==> s in cuts || Recovers(s, a, log)
    }

    /** Finds the sysparam area after a reset, repairs it if need be, and takes it up.  If
        there is no magic where it looks, or a stale header on its own, it reports that and
        does nothing. */
    method Init(baseAddr: nat, topAddr: nat, ghost a: Area) returns (status: Status)
      modifies this, chip
      ensures Reachable(old(chip.mem), a, baseAddr, topAddr) ==> status == Ok && Restored(a, old(chip.mem), old(chip.cuts))
      ensures NothingFound(old(chip.mem), baseAddr, topAddr) <==> status == NotFound
      ensures status == NotFound ==> unchanged(this) && unchanged(chip)
      ensures StaleFound(old(chip.mem), a, baseAddr, topAddr) ==> status == ErrCorrupt && unchanged(this) && unchanged(chip)
    {
      var from := SearchFrom(baseAddr);
      var top := SearchTop(baseAddr, topAddr);
      var addr0;
      status, addr0 := FindMagic(from, top);
      if Reachable(chip.mem, a, baseAddr, topAddr) { FirstFound(chip.mem, a, from, top, addr0); }
      if status == Ok { status := Open(addr0, a); }
    }

    /** Checks that everything from `base` to `top` is erased.  Each read covers eight
        words, though the scan advances by only eight bytes: so the 24 bytes behind must
        be there and erased too. */
    method ScanEmpty(base: nat, top: nat) returns (status: Status)
      requires base < top && (top - base) % 8 == 0
      ensures status in {Ok, NotFound, ErrIo}
      ensures status == Ok <==> top + 24 <= |chip.mem| && AllErased(chip.mem, base, top + 24)
    {
      var addr := base;
      while addr < top
        invariant base <= addr <= top && (top - addr) % 8 == 0
        invariant base < addr ==> addr + 24 <= |chip.mem| && AllErased(chip.mem, base, addr + 24)
      {
        if addr + 32 > |chip.mem| { return ErrIo; }
        if exists i :: addr <= i < addr + 32 && chip.mem[i] != ERASED { return NotFound; }
        addr := addr + 8;
      }
      status := Ok;
    }

    /** Sets up an empty area of two regions of half of `sectors` each.  A power cut in the
        meantime leaves an area that recovers as empty, or no magic at its start. */
    method CreateArea(base: nat, sectors: nat, force: bool) returns (status: Status)
      requires base % SECTOR == 0 && 0 < base && base + sectors * SECTOR <= |chip.mem| && sectors <= 2 * MAX_SECTORS
      modifies this, chip
      ensures status in {Ok, NotFound, ErrBadValue, ErrIo}
      ensures status == ErrBadValue <==> sectors < 1 || sectors % 2 == 1
      ensures status == Ok <==>
                && 1 <= sectors && sectors % 2 == 0
                && (force || CreatesOn(old(chip.mem), base, base + sectors * SECTOR))
      ensures status == Ok ==> var a := Area(base, sectors / 2); Recovers(chip.mem, a, []) && Selected(chip.mem, a) == base && MagicAt(chip.mem, base)
      ensures status == Ok ==> AgreeOutside(chip.mem, old(chip.mem), base, base + sectors * SECTOR)
      ensures old(chip.cuts) <= chip.cuts
      ensures forall s :: s in chip.cuts ==>
                s in old(chip.cuts) || MidCreate(s, old(chip.mem), Area(base, sectors / 2))
      ensures status != Ok ==> unchanged(this) && unchanged(chip)
      ensures status == Ok && (old(curBase) == base || old(altBase) == base) ==> curBase == 0
      ensures status == Ok && old(curBase) != base && old(altBase) != base ==> unchanged(this)
    {
      if sectors < 1 || sectors % 2 == 1 { return ErrBadValue; }
      if !force {
        status := ScanEmpty(base, base + sectors * SECTOR);
        if status != Ok { return; }
      }
      if curBase == base || altBase == base {
        curBase, altBase, endAddr, regionSize, forceCompact := 0, 0, 0, 0, false;
      }
      FormatArea(chip, base, sectors / 2);
      status := Ok;
    }

    /** What is created can be opened, by a search of the first sector only. */
    method CreateThenInit(base: nat, sectors: nat, force: bool) returns (status: Status)
      requires base % SECTOR == 0 && 0 < base && base + sectors * SECTOR <= |chip.mem| && sectors <= 2 * MAX_SECTORS
      modifies this, chip
      ensures status == Ok <==>
                && 1 <= sectors && sectors % 2 == 0
                && (force || CreatesOn(old(chip.mem), base, base + sectors * SECTOR))
      ensures status == Ok ==> Valid() && log == [] && area == Area(base, sectors / 2) && curBase == base
      ensures status != Ok ==> unchanged(this) && unchanged(chip)
    {
      status := CreateArea(base, sectors, force);
      if status == Ok {
        ghost var a := Area(base, sectors / 2);
        OneSectorFinds(chip.mem, a, base, 0);
        status := Init(base, 0, a);
      }
    }
  }

  /** The test that the code makes on the free space is `CompactsForSpace`. */
  lemma SpaceGuard(log: seq<Entry>, cap: nat, key: seq<Byte>, len: nat, free: nat, needed: nat)
    requires free + Offset(log, |log|) == cap && needed == Needed(log, key, len)
    ensures CompactsForSpace(log, cap, key, len) <==>
            needed > free && (needed <= free + Reclaimable(log, key) || Balance(log, |log|) > 0)
  {
  }

  /** Without force, an area is created on erased flash with 24 erased bytes behind it. */
  predicate CreatesOn(mem: seq<Byte>, base: nat, top: nat)
    requires base <= top
  {
    top + 24 <= |mem| && forall i :: base <= i < top + 24 ==> mem[i] == ERASED
  }

  /** What a power cut while an area is created can leave: an area that recovers as empty, or
      the first header gone and the second region erased or as it was. */
  ghost predicate MidCreate(s: seq<Byte>, mem: seq<Byte>, a: Area)
  {
    && AgreeOutside(s, mem, a.lo, a.lo + 2 * a.Size())
    && ((Recovers(s, a, []) && MagicAt(s, a.lo)) || HeaderGone(s, mem, a))
  }

  ghost predicate HeaderGone(s: seq<Byte>, mem: seq<Byte>, a: Area)
  {
    && a.lo + REGION_HEADER_SIZE <= |s| && AllErased(s, a.lo, a.lo + REGION_HEADER_SIZE)
    && ((a.Hi() + REGION_HEADER_SIZE <= |s| && AllErased(s, a.Hi(), a.Hi() + REGION_HEADER_SIZE))
        || MidFormat(s, mem, a.lo, a.sectors))
  }

  /** Erases both regions and writes their headers. */
  method FormatArea(chip: Chip, base: nat, n: nat)
    requires base % SECTOR == 0 && 0 < base && base + 2 * (n * SECTOR) <= |chip.mem| && 1 <= n <= MAX_SECTORS
    modifies chip
    ensures Recovers(chip.mem, Area(base, n), []) && Selected(chip.mem, Area(base, n)) == base && MagicAt(chip.mem, base)
    ensures AgreeOutside(chip.mem, old(chip.mem), base, base + 2 * (n * SECTOR))
    ensures old(chip.cuts) <= chip.cuts
    ensures forall s :: s in chip.cuts ==> s in old(chip.cuts) || MidCreate(s, old(chip.mem), Area(base, n))
  {
    var size := n * SECTOR;
    ghost var a := Area(base, n);
    SectorFacts(base, n);
    EraseArea(chip, base, n);
    ghost var mem1 := chip.mem;
    HoldsNothing(mem1, base, size);
    WriteRegionHeader(chip, base, base + size, true, a);
    ghost var mem2 := chip.mem;
    HeaderAlone(mem1, mem2, a);
    WriteRegionHeader(chip, base + size, base, false, a);
    NewArea(mem1, mem2, chip.mem, a);
    HeaderFrame(mem2, chip.mem, a, a.lo, true);
  }

  method EraseArea(chip: Chip, base: nat, n: nat)
    requires base % SECTOR == 0 && 0 < base && base + 2 * (n * SECTOR) <= |chip.mem| && 1 <= n <= MAX_SECTORS
    modifies chip
    ensures AllErased(chip.mem, base, base + 2 * (n * SECTOR))
    ensures AgreeOutside(chip.mem, old(chip.mem), base, base + 2 * (n * SECTOR))
    ensures old(chip.cuts) <= chip.cuts
    ensures forall s :: s in chip.cuts ==> s in old(chip.cuts) || MidCreate(s, old(chip.mem), Area(base, n))
  {
    var size := n * SECTOR;
    ghost var mem0, cuts0 := chip.mem, chip.cuts;
    SectorFacts(base, n);
    FormatRegion(chip, base, n);
    ghost var mem1, cuts1 := chip.mem, chip.cuts;
    forall s | s in cuts1 ensures s in cuts0 || MidCreate(s, mem0, Area(base, n)) {
      if s !in cuts0 { CutInFirst(s, mem0, Area(base, n)); }
    }
    FormatRegion(chip, base + size, n);
    forall s | s in chip.cuts ensures s in cuts1 || MidCreate(s, mem0, Area(base, n)) {
      if s !in cuts1 { CutInSecond(s, mem1, mem0, Area(base, n)); }
    }
  }

  lemma CutInFirst(s: seq<Byte>, mem: seq<Byte>, a: Area)
    requires a.Fits(mem) && MidFormat(s, mem, a.lo, a.sectors)
    ensures MidCreate(s, mem, a)
  {
    BaseFacts(a, mem, a.lo);
  }

  lemma CutInSecond(s: seq<Byte>, mem1: seq<Byte>, mem: seq<Byte>, a: Area)
    requires a.Fits(mem) && AgreeOutside(mem1, mem, a.lo, a.Hi()) && AllErased(mem1, a.lo, a.Hi())
    requires MidFormat(s, mem1, a.Hi(), a.sectors)
    ensures MidCreate(s, mem, a)
  {
    BaseFacts(a, mem, a.lo);
  }

  /** As soon as the first header is there, a reset recovers the empty log. */
  lemma HeaderAlone(mem1: seq<Byte>, mem2: seq<Byte>, a: Area)
    requires a.Fits(mem1) && AllErased(mem1, a.lo, a.Hi() + a.Size()) && Holds(mem1, a.lo, a.Size(), [])
    requires AgreeOutside(mem2, mem1, a.lo, a.lo + REGION_HEADER_SIZE) && HeaderIs(mem2, a, a.lo, true)
    ensures Recovers(mem2, a, [])
  {
    BaseFacts(a, mem1, a.lo);
    HoldsFrame(mem1, mem2, a.lo, a.Size(), []);
    assert mem2[a.Hi()] == mem1[a.Hi()] == ERASED;
    SoundBecause(mem2, a, a.lo, []);
  }

  lemma NewArea(mem1: seq<Byte>, mem2: seq<Byte>, mem3: seq<Byte>, a: Area)
    requires a.Fits(mem1) && Holds(mem1, a.lo, a.Size(), [])
    requires AgreeOutside(mem2, mem1, a.lo, a.lo + REGION_HEADER_SIZE) && HeaderIs(mem2, a, a.lo, true)
    requires AgreeOutside(mem3, mem2, a.Hi(), a.Hi() + REGION_HEADER_SIZE) && HeaderIs(mem3, a, a.Hi(), false)
    ensures Recovers(mem3, a, []) && Selected(mem3, a) == a.lo
  {
    BaseFacts(a, mem1, a.lo);
    HoldsFrame(mem1, mem2, a.lo, a.Size(), []);
    HoldsFrame(mem2, mem3, a.lo, a.Size(), []);
    HeaderFrame(mem2, mem3, a, a.lo, true);
    SoundBecause(mem3, a, a.lo, []);
  }

  lemma ScanFromStart(mem: seq<Byte>, base: nat, size: nat, log: seq<Entry>)
    requires 12 <= size && Holds(mem, base, size, log) && WellFormed(log)
    ensures var c := Context(base, NO_TAG, 0, 0, 0, 0);
            && Framed(mem, base, size, c)
            && var r := Scan(mem, base, base + size, c, ENTRY_ID_END, false);
               !r.found && !r.truncated && r.c.addr == AddrOf(base, log, |log|)
  {
    var c := Context(base, NO_TAG, 0, 0, 0, 0);
    StandingIsFramed(mem, base, size, log, c, -1, 0);
    NoKeyAtEnd(log, 0);
    ScanFinds(mem, base, size, log, c, -1, 0, ENTRY_ID_END, false);
  }

  // ----- where the search looks -----

  function SearchFrom(baseAddr: nat): (r: nat)
    ensures r % SECTOR == 0
  {
    baseAddr - baseAddr % SECTOR
  }

  /** With no top, or a top that is the start, the search is of one sector. */
  function SearchTop(baseAddr: nat, topAddr: nat): (r: nat)
  {
    if topAddr == 0 || topAddr == SearchFrom(baseAddr) then SearchFrom(baseAddr) + SECTOR else topAddr
  }

  /** `x` is the first sector searched that starts with the magic. */
  ghost predicate FoundFirst(mem: seq<Byte>, from: nat, top: nat, x: nat)
  {
    && from <= x < top && x % SECTOR == 0 && MagicAt(mem, x)
    && forall y :: from <= y < x && y % SECTOR == 0 ==> !MagicAt(mem, y)
  }

  ghost predicate NothingFound(mem: seq<Byte>, baseAddr: nat, topAddr: nat)
  {
    var from, top := SearchFrom(baseAddr), SearchTop(baseAddr, topAddr);
    forall x :: from <= x < top && x % SECTOR == 0 ==> x + REGION_HEADER_SIZE <= |mem| && !MagicAt(mem, x)
  }

  /** Where a header says that the other one is; an address below zero wraps around and is
      past the end of the chip. */
  function Twin(addr0: nat, flags: nat): (r: int)
    ensures r == addr0 + SectorsIn(flags) * SECTOR || addr0 == r + SectorsIn(flags) * SECTOR
  {
    if IsSecond(flags) then addr0 - SectorsIn(flags) * SECTOR else addr0 + SectorsIn(flags) * SECTOR
  }

  lemma TwinIs(mem: seq<Byte>, a: Area, addr0: nat)
    requires addr0 + REGION_HEADER_SIZE <= |mem|
    ensures var f := Half(mem, addr0 + 4);
            && (Located(mem, a, addr0) ==> Twin(addr0, f) == a.Other(addr0) && SectorsIn(f) == a.sectors)
            && (StaleAlone(mem, a, addr0) ==> Twin(addr0, f) == a.Other(addr0) && !IsActive(f))
  {
    if StaleAlone(mem, a, addr0) { FlagsMean(addr0 != a.lo, false, a.sectors); }
  }

  /** There is a stale header at `addr0`, and none where its twin should be. */
  ghost predicate StaleAlone(mem: seq<Byte>, a: Area, addr0: nat)
  {
    a.Fits(mem) && a.IsBase(addr0) && HeaderIs(mem, a, addr0, false) && !MagicAt(mem, a.Other(addr0))
  }

  ghost predicate StaleFound(mem: seq<Byte>, a: Area, baseAddr: nat, topAddr: nat)
  {
    var from, top := SearchFrom(baseAddr), SearchTop(baseAddr, topAddr);
    exists x :: FoundFirst(mem, from, top, x) && StaleAlone(mem, a, x)
  }

  /** The search finds the area: the first magic is that of its first region or of its
      second.  (Found by its second region alone, an area caught between the two header
      writes of a compaction would be taken up with the new log and not the old one.) */
  ghost predicate Reachable(mem: seq<Byte>, a: Area, baseAddr: nat, topAddr: nat)
  {
    var from, top := SearchFrom(baseAddr), SearchTop(baseAddr, topAddr);
    && Sound(mem, a)
    && (FoundFirst(mem, from, top, a.lo)
        || (FoundFirst(mem, from, top, a.Hi()) && !(Selected(mem, a) == a.lo && IsActive(Half(mem, a.Hi() + 4)))))
  }

  /** A search that starts anywhere in the first sector, with no top or with that sector as its
      top, finds the area if and only if the first region still has its magic, and otherwise
      it finds nothing. */
  lemma OneSectorFinds(mem: seq<Byte>, a: Area, baseAddr: nat, topAddr: nat)
    requires Sound(mem, a) && a.lo <= baseAddr < a.lo + SECTOR && (topAddr == 0 || topAddr == a.lo)
    ensures Reachable(mem, a, baseAddr, topAddr) <==> MagicAt(mem, a.lo)
    ensures !MagicAt(mem, a.lo) ==> NothingFound(mem, baseAddr, topAddr)
  {
    BaseFacts(a, mem, a.lo);
    SectorOf(a.lo, baseAddr);
    assert SearchFrom(baseAddr) == a.lo && SearchTop(baseAddr, topAddr) == a.lo + SECTOR;
    forall x | a.lo <= x < a.lo + SECTOR && x % SECTOR == 0 ensures x == a.lo { SameSector(a.lo, x); }
  }

  lemma SectorOf(a: nat, x: nat)
    requires a % SECTOR == 0 && a <= x < a + SECTOR
    ensures x - x % SECTOR == a
  {
  }

  lemma SameSector(a: nat, x: nat)
    requires a % SECTOR == 0 && x % SECTOR == 0 && a <= x < a + SECTOR
    ensures x == a
  {
  }

  /** So it misses an area whose active region is the second one, once a power cut has
      interrupted the erasing of the first: a reset that looked further would recover it. */
  lemma OneSectorMisses(mem: seq<Byte>, s: seq<Byte>, a: Area, baseAddr: nat, topAddr: nat)
    requires a.lo <= baseAddr < a.lo + SECTOR && (topAddr == 0 || topAddr == a.lo)
    requires Sound(mem, a) && Selected(mem, a) == a.Hi() && MidFormat(s, mem, a.lo, a.sectors)
    ensures Recovers(s, a, DiskLog(mem, a)) && NothingFound(s, baseAddr, topAddr)
  {
    BeforeSwitch(mem, s, s, a, a.Hi());
    assert s[a.lo] == ERASED;
    OneSectorFinds(s, a, baseAddr, topAddr);
  }

  /** A search from the first region to beyond the second finds any area that a reset can
      recover; only if the first header is gone must no payload before the second one look
      like a header. */
  lemma LongSearchFinds(mem: seq<Byte>, a: Area, topAddr: nat)
    requires Sound(mem, a) && a.Hi() < topAddr
    requires MagicAt(mem, a.lo) || forall x :: a.lo < x < a.Hi() && x % SECTOR == 0 ==> !MagicAt(mem, x)
    ensures Reachable(mem, a, a.lo, topAddr)
  {
    BaseFacts(a, mem, a.lo);
    BaseFacts(a, mem, a.Hi());
    assert SearchFrom(a.lo) == a.lo && SearchTop(a.lo, topAddr) == topAddr;
  }

  /** `addr0` is the first header of the area, and everything it says is right. */
  ghost predicate Located(mem: seq<Byte>, a: Area, addr0: nat)
  {
    && Sound(mem, a) && a.IsBase(addr0) && MagicAt(mem, addr0)
    && var f, other := Half(mem, addr0 + 4), a.Other(addr0);
    && SectorsIn(f) == a.sectors && IsSecond(f) == (addr0 != a.lo)
    && (MagicAt(mem, other) ==> IsSecond(Half(mem, other + 4)) != IsSecond(f))
    && (!MagicAt(mem, other) ==> IsActive(f))
    && Selected(mem, a) == if IsActive(f) then addr0 else other
  }

  lemma FirstFound(mem: seq<Byte>, a: Area, from: nat, top: nat, addr0: nat)
    requires Sound(mem, a)
    requires FoundFirst(mem, from, top, a.lo)
             || (FoundFirst(mem, from, top, a.Hi()) && !(Selected(mem, a) == a.lo && IsActive(Half(mem, a.Hi() + 4))))
    ensures FoundFirst(mem, from, top, addr0) ==> Located(mem, a, addr0)
    ensures exists x :: FoundFirst(mem, from, top, x)
  {
    var x := if FoundFirst(mem, from, top, a.lo) then a.lo else a.Hi();
    assert FoundFirst(mem, from, top, x);
    HeaderLocates(mem, a, x);
    if FoundFirst(mem, from, top, addr0) { assert addr0 == x; }
  }

  lemma HeaderLocates(mem: seq<Byte>, a: Area, addr0: nat)
    requires Sound(mem, a) && a.IsBase(addr0) && MagicAt(mem, addr0)
    requires addr0 == a.lo || !(Selected(mem, a) == a.lo && IsActive(Half(mem, a.Hi() + 4)))
    ensures Located(mem, a, addr0)
  {
    var base := Selected(mem, a);
    assert MagicAt(mem, base);
    FlagsMean(base != a.lo, true, a.sectors);
    FlagsMean(base == a.lo, true, a.sectors);
    FlagsMean(base == a.lo, false, a.sectors);
  }

  lemma FlagsMean(second: bool, active: bool, sectors: nat)
    requires sectors <= MAX_SECTORS
    ensures var f := RegionFlags(second, active, sectors);
            IsSecond(f) == second && IsActive(f) == active && SectorsIn(f) == sectors
  {
  }

  /** Deletes entry `j` of the log at `base`, on a chip from which a reset recovers. */
  method KillIn(chip: Chip, addr: nat, ghost area: Area, ghost base: nat, ghost l: seq<Entry>, ghost j: nat)
    requires Sound(chip.mem, area) && area.IsBase(base) && Holds(chip.mem, base, area.Size(), l) && j < |l|
    requires (base == Selected(chip.mem, area) ==> l == DiskLog(chip.mem, area)) && addr == AddrOf(base, l, j)
    modifies chip
    ensures area.Fits(old(chip.mem)) && area.Fits(chip.mem) && Selected(chip.mem, area) == Selected(old(chip.mem), area)
    ensures var log, cur := DiskLog(old(chip.mem), area), Selected(old(chip.mem), area);
            var log' := if base == cur then Kill(log, j) else log;
            Recovers(chip.mem, area, log') && AddrOf(cur, log', |log'|) == AddrOf(cur, log, |log|)
    ensures chip.cuts == old(chip.cuts) + {chip.mem} && OnlyIn(chip.mem, old(chip.mem), area)
  {
    ghost var mem0 := chip.mem;
    EntryPlace(mem0, area, base, l, j);
    SysparamFlash.DeleteEntry(chip, addr, l[j]);
    DeletedOnDisk(mem0, chip.mem, area, base, l, j);
  }

  lemma EntryPlace(mem: seq<Byte>, area: Area, base: nat, l: seq<Entry>, j: nat)
    requires area.Fits(mem) && area.IsBase(base) && Holds(mem, base, area.Size(), l) && j < |l|
    ensures AddrOf(base, l, j) % 4 == 0 && EntryAt(mem, AddrOf(base, l, j), l[j])
    ensures base + REGION_HEADER_SIZE <= AddrOf(base, l, j) && AddrOf(base, l, j) + 4 <= base + area.Size()
  {
    assert AddrOf(base, l, j) % 4 == 0 by {
      BaseFacts(area, mem, base);
      AddrAligned(base, l, j);
    }
    assert TileAt(mem, base, l, j);
    OffsetMonotone(l, j, |l|);
  }

  /** Appending to the active log moves no entry, and leaves the stale region alone. */
  lemma OldStillThere(mem: seq<Byte>, s: seq<Byte>, area: Area, cur: nat, base: nat, l: seq<Entry>, log': seq<Entry>, j: nat)
    requires area.Fits(mem) && area.IsBase(cur) && area.IsBase(base) && InRegion(s, mem, cur, area.Size())
    requires Holds(mem, base, area.Size(), l) && j < |l|
    requires base == cur ==> l <= log' && Holds(s, base, area.Size(), log')
    ensures var l' := if base == cur then log' else l;
            j < |l'| && Holds(s, base, area.Size(), l') && AddrOf(base, l', j) == AddrOf(base, l, j)
  {
    if base == cur {
      OffsetPrefix(l, log', j);
    } else {
      BaseFacts(area, mem, base);
      BaseFacts(area, mem, cur);
      HoldsFrame(mem, s, base, area.Size(), l);
    }
  }

  lemma KillOnDisk(mem: seq<Byte>, s: seq<Byte>, area: Area, j: nat)
    requires Sound(mem, area) && j < |DiskLog(mem, area)|
    requires var at := AddrOf(Selected(mem, area), DiskLog(mem, area), j);
             AgreeOutside(s, mem, at, at + 4) && EntryAt(s, at, DiskLog(mem, area)[j].Killed())
    ensures Recovers(s, area, Kill(DiskLog(mem, area), j)) && Selected(s, area) == Selected(mem, area)
    ensures var l := DiskLog(mem, area); Offset(Kill(l, j), |l|) == Offset(l, |l|)
  {
    var base, l := Selected(mem, area), DiskLog(mem, area);
    EntryPlace(mem, area, base, l, j);
    HoldsUpdate(mem, s, base, area.Size(), l, j, l[j].Killed());
    KillWellFormed(l, j);
    SoundLocal(mem, s, area, Kill(l, j));
  }

  /** Clearing a bit of entry `j` of either region: only the log of that region changes. */
  lemma DeletedOnDisk(mem: seq<Byte>, s: seq<Byte>, area: Area, base: nat, l: seq<Entry>, j: nat)
    requires Sound(mem, area) && area.IsBase(base) && Holds(mem, base, area.Size(), l) && j < |l|
    requires base == Selected(mem, area) ==> l == DiskLog(mem, area)
    requires AgreeOutside(s, mem, AddrOf(base, l, j), AddrOf(base, l, j) + 4) && EntryAt(s, AddrOf(base, l, j), l[j].Killed())
    ensures Selected(s, area) == Selected(mem, area)
    ensures var log, cur := DiskLog(mem, area), Selected(mem, area);
            var log' := if base == cur then Kill(log, j) else log;
            Recovers(s, area, log') && |log'| == |log| && Offset(log', |log'|) == Offset(log, |log|)
  {
    EntryPlace(mem, area, base, l, j);
    if base == Selected(mem, area) { KillOnDisk(mem, s, area, j); } else { StaleWrite(mem, s, area); }
  }

  lemma StaleWrite(mem: seq<Byte>, s: seq<Byte>, area: Area)
    requires Sound(mem, area) && InRegion(s, mem, area.Other(Selected(mem, area)), area.Size())
    ensures Recovers(s, area, DiskLog(mem, area)) && Selected(s, area) == Selected(mem, area)
  {
    var base := Selected(mem, area);
    var other := area.Other(base);
    BaseFacts(area, mem, base);
    BaseFacts(area, mem, other);
    assert s[other..other + 4] == mem[other..other + 4];
    if MagicAt(s, other) {
      if HeaderIs(mem, area, other, false) {
        HeaderFrame(mem, s, area, other, false);
      } else {
        HeaderFrame(mem, s, area, other, true);
      }
    }
    SoundFrame(mem, s, area);
  }

  lemma NoKeyAtEnd(log: seq<Entry>, i: nat)
    requires WellFormed(log) && i <= |log|
    ensures FindFrom(log, i, ENTRY_ID_END, false) == |log|
  {
  }

  lemma ScanRest(mem: seq<Byte>, base: nat, size: nat, log: seq<Entry>, c: Context, pos: nat, extra: nat)
    requires Framed(mem, base, size, c) && WellFormed(log)
    requires Holds(mem, base, size, log) && StandsAt(c, base, log, pos, extra)
    ensures var r := Scan(mem, base, base + size, c, ENTRY_ID_END, false);
            !r.found && Counted(r.c, log, |log|, extra) && r.truncated == (pos == |log| && c.addr + 4 > base + size)
  {
    if pos < |log| {
      NoKeyAtEnd(log, pos + 1);
      ScanFinds(mem, base, size, log, c, pos, extra, ENTRY_ID_END, false);
    } else {
      ScanPastEnd(mem, base, size, log, c, extra, ENTRY_ID_END, false);
    }
  }

  /** Changing only the entries of the selected region changes only its log. */
  lemma SoundLocal(mem: seq<Byte>, s: seq<Byte>, area: Area, l: seq<Entry>)
    requires Sound(mem, area) && InRegion(s, mem, Selected(mem, area), area.Size())
    requires Holds(s, Selected(mem, area), area.Size(), l) && WellFormed(l)
    ensures Recovers(s, area, l) && Selected(s, area) == Selected(mem, area)
  {
    var base := Selected(mem, area);
    var other := area.Other(base);
    BaseFacts(area, mem, base);
    BaseFacts(area, mem, other);
    HeaderFrame(mem, s, area, base, true);
    assert s[other..other + 4] == mem[other..other + 4];
    if MagicAt(s, other) {
      if HeaderIs(mem, area, other, false) {
        HeaderFrame(mem, s, area, other, false);
      } else {
        HeaderFrame(mem, s, area, other, true);
      }
    }
    SoundBecause(s, area, base, l);
  }

  lemma TornIsSound(mem: seq<Byte>, s: seq<Byte>, area: Area, tag: Tag, len: nat)
    requires Sound(mem, area) && tag.id <= MAX_KEY_ID && len <= MAX_LEN
    requires var l := DiskLog(mem, area);
             && AddrOf(Selected(mem, area), l, |l|) + EntrySize(len) <= Selected(mem, area) + area.Size()
             && Torn(s, mem, Selected(mem, area), area.Size(), l, tag, len)
    ensures Sound(s, area) && DeadAppended(DiskLog(s, area), DiskLog(mem, area))
  {
    var base, l := Selected(mem, area), DiskLog(mem, area);
    var e := TornEntry(s, AddrOf(base, l, |l|), tag, len);
    assert !e.Live() && e.InFormat();
    AppendOther(l, e, []);
    SoundLocal(mem, s, area, l + [e]);
  }

  /** While the key of a new pair is written. */
  lemma KeyCuts(cuts: set<seq<Byte>>, cuts0: set<seq<Byte>>, area: Area, log: seq<Entry>, n: nat, key: seq<Byte>, v: Value)
    requires n == LastKeyId(log, |log|) + 1
    requires forall s :: s in cuts ==>
               || s in cuts0 || Recovers(s, area, log + [KeyEntry(n, key)])
               || (Sound(s, area) && DeadAppended(DiskLog(s, area), log))
    ensures forall s :: s in cuts ==> s in cuts0 || (Sound(s, area) && Midway(DiskLog(s, area), log, -1, key, v))
  {
    forall s | s in cuts && s !in cuts0 ensures Sound(s, area) && Midway(DiskLog(s, area), log, -1, key, v) { }
  }

  lemma TornCuts(cuts: set<seq<Byte>>, cuts0: set<seq<Byte>>, last: seq<Byte>, mem: seq<Byte>, area: Area, tag: Tag, len: nat)
    requires Sound(mem, area) && tag.id <= MAX_KEY_ID && len <= MAX_LEN
    requires var l := DiskLog(mem, area);
             && AddrOf(Selected(mem, area), l, |l|) + EntrySize(len) <= Selected(mem, area) + area.Size()
             && forall s :: s in cuts ==> s in cuts0 || s == last || Torn(s, mem, Selected(mem, area), area.Size(), l, tag, len)
    ensures forall s :: s in cuts ==> s in cuts0 || s == last || (Sound(s, area) && DeadAppended(DiskLog(s, area), DiskLog(mem, area)))
  {
    forall s | s in cuts && s !in cuts0 && s != last ensures Sound(s, area) && DeadAppended(DiskLog(s, area), DiskLog(mem, area)) {
      TornIsSound(mem, s, area, tag, len);
    }
  }

  /** Changes are confined to the part of the region at `base` from `addr` on. */
  ghost predicate Below(addr: nat, base: nat, size: nat, s: seq<Byte>, mem: seq<Byte>)
  {
    AgreeOutside(s, mem, addr, base + size)
  }

  /** The region at `newBase` holds the pairs of the first `n` entries of `log`, under
      new ids `1..count`. */
  ghost predicate Copied(mem: seq<Byte>, newBase: nat, size: nat, log: seq<Entry>, n: nat, keyId: int,
                         addr: nat, count: nat, newId: int)
  {
    && n <= |log|
    && var items := Items(log, n);
       var l := Compacted(items, |items|, keyId);
    && count == |items| && newId == NewId(items, |items|, keyId)
    && Holds(mem, newBase, size, l) && addr == AddrOf(newBase, l, |l|)
  }

  lemma CompactedCount(log: seq<Entry>, keyId: int)
    requires WellFormed(log)
    ensures var log2 := CompactedLog(log, keyId); LastKeyId(log2, |log2|) == |Items(log, |log|)|
  {
    ItemsFacts(log, |log|);
    CompactedFacts(Items(log, |log|), |Items(log, |log|)|, keyId);
  }

  /** Everything is in place for the other region to take over. */
  ghost predicate Staged(mem: seq<Byte>, area: Area, base: nat, log: seq<Entry>, log2: seq<Entry>)
  {
    && area.Fits(mem) && area.IsBase(base)
    && HeaderIs(mem, area, base, true) && Holds(mem, base, area.Size(), log) && WellFormed(log)
    && AllErased(mem, area.Other(base), area.Other(base) + REGION_HEADER_SIZE)
    && Holds(mem, area.Other(base), area.Size(), log2) && WellFormed(log2)
  }

  /** Once everything is copied, the other region is ready. */
  lemma CopiedIsStaged(mem0: seq<Byte>, mem1: seq<Byte>, mem2: seq<Byte>, area: Area, log: seq<Entry>, keyId: int,
                       addr: nat, count: nat, newId: int)
    requires Recovers(mem0, area, log)
    requires var base, other, size := Selected(mem0, area), area.Other(Selected(mem0, area)), area.Size();
             && AgreeOutside(mem1, mem0, other, other + size) && AllErased(mem1, other, other + size)
             && InRegion(mem2, mem1, other, size) && Holds(mem2, base, size, log)
             && Copied(mem2, other, size, log, |log|, keyId, addr, count, newId)
    ensures var base, log2 := Selected(mem0, area), CompactedLog(log, keyId);
            && Staged(mem2, area, base, log, log2)
            && addr == AddrOf(area.Other(base), log2, |log2|) && count == LastKeyId(log2, |log2|)
            && newId == RenumberedId(log, keyId)
  {
    var base := Selected(mem0, area);
    BaseFacts(area, mem0, base);
    BaseFacts(area, mem0, area.Other(base));
    CompactionMeaning(log, keyId, []);
    CompactedCount(log, keyId);
    HeaderFrame(mem0, mem2, area, base, true);
  }

  /** Writes the active header of the new region, then marks the old one stale. */
  method SwitchRegions(chip: Chip, newBase: nat, base: nat, ghost area: Area, ghost log: seq<Entry>, ghost log2: seq<Entry>)
    requires Staged(chip.mem, area, base, log, log2) && newBase == area.Other(base)
    modifies chip
    ensures Recovers(chip.mem, area, log2) && Selected(chip.mem, area) == newBase
    ensures Holds(chip.mem, base, area.Size(), log) && OnlyIn(chip.mem, old(chip.mem), area)
    ensures old(chip.cuts) <= chip.cuts
    ensures forall s :: s in chip.cuts ==> s in old(chip.cuts) || Recovers(s, area, log) || Recovers(s, area, log2)
  {
    ghost var mem2 := chip.mem;
    ghost var mem3 := WriteBothHeaders(chip, newBase, base, area);
    DuringSwitch(mem2, mem3, chip.mem, area, base, log, log2);
    BaseFacts(area, mem2, base);
    assert OnlyIn(mem3, mem2, area);
  }

  method WriteBothHeaders(chip: Chip, newBase: nat, base: nat, ghost area: Area) returns (ghost mem3: seq<Byte>)
    requires area.Fits(chip.mem) && area.IsBase(base) && newBase == area.Other(base)
    requires HeaderIs(chip.mem, area, base, true) && AllErased(chip.mem, newBase, newBase + REGION_HEADER_SIZE)
    modifies chip
    ensures AgreeOutside(mem3, old(chip.mem), newBase, newBase + REGION_HEADER_SIZE) && HeaderIs(mem3, area, newBase, true)
    ensures AgreeOutside(chip.mem, mem3, base, base + REGION_HEADER_SIZE) && HeaderIs(chip.mem, area, base, false)
    ensures chip.cuts == old(chip.cuts) + {mem3, chip.mem}
  {
    ghost var mem2 := chip.mem;
    BaseFacts(area, mem2, base);
    BaseFacts(area, mem2, newBase);
    WriteRegionHeader(chip, newBase, base, true, area);
    mem3 := chip.mem;
    HeaderFrame(mem2, mem3, area, base, true);
    WriteRegionHeader(chip, base, newBase, false, area);
  }

  /** What a reset makes of image `s`. */
  ghost predicate Recovers(s: seq<Byte>, area: Area, log: seq<Entry>)
  {
    Sound(s, area) && DiskLog(s, area) == log
  }

  /** Only the entries of the region at `base` differ. */
  ghost predicate InRegion(s: seq<Byte>, mem: seq<Byte>, base: nat, size: nat)
  {
    AgreeOutside(s, mem, base + REGION_HEADER_SIZE, base + size)
  }

  /** Until the new header is written, a reset still finds the old region. */
  lemma BeforeSwitch(mem: seq<Byte>, erased: seq<Byte>, s: seq<Byte>, area: Area, base: nat)
    requires Sound(mem, area) && base == Selected(mem, area)
    requires MidFormat(s, mem, area.Other(base), area.sectors)
             || (MidFormat(erased, mem, area.Other(base), area.sectors) && InRegion(s, erased, area.Other(base), area.Size()))
    ensures Recovers(s, area, DiskLog(mem, area))
  {
    var other := area.Other(base);
    assert area.sectors * SECTOR == area.Size();
    assert s[other] == ERASED;
    assert !MagicAt(s, other);
    SoundFrame(mem, s, area);
  }

  lemma CutsBeforeSwitch(cuts: set<seq<Byte>>, cuts0: set<seq<Byte>>, mem: seq<Byte>, erased: seq<Byte>, area: Area, base: nat)
    requires Sound(mem, area) && base == Selected(mem, area) && MidFormat(erased, mem, area.Other(base), area.sectors)
    requires forall s :: s in cuts ==>
               || s in cuts0 || MidFormat(s, mem, area.Other(base), area.sectors)
               || InRegion(s, erased, area.Other(base), area.Size())
    ensures forall s :: s in cuts ==> s in cuts0 || Recovers(s, area, DiskLog(mem, area))
  {
    forall s | s in cuts && s !in cuts0 ensures Recovers(s, area, DiskLog(mem, area)) {
      BeforeSwitch(mem, erased, s, area, base);
    }
  }

  lemma HeaderFrame(mem: seq<Byte>, mem': seq<Byte>, area: Area, base: nat, active: bool)
    requires HeaderIs(mem, area, base, active) && Agree(mem, mem', base, base + REGION_HEADER_SIZE)
    ensures HeaderIs(mem', area, base, active)
  {
    assert mem'[base..base + 4] == mem[base..base + 4];
  }

  /** Between the two header writes a reset finds one complete region or the other;
      after them, the new one. */
  lemma DuringSwitch(mem2: seq<Byte>, mem3: seq<Byte>, mem4: seq<Byte>, area: Area, base: nat,
                     log: seq<Entry>, log2: seq<Entry>)
    requires Staged(mem2, area, base, log, log2)
    requires AgreeOutside(mem3, mem2, area.Other(base), area.Other(base) + REGION_HEADER_SIZE)
    requires HeaderIs(mem3, area, area.Other(base), true)
    requires AgreeOutside(mem4, mem3, base, base + REGION_HEADER_SIZE) && HeaderIs(mem4, area, base, false)
    ensures Recovers(mem3, area, log) || Recovers(mem3, area, log2)
    ensures Recovers(mem4, area, log2) && Selected(mem4, area) == area.Other(base)
    ensures Holds(mem4, base, area.Size(), log)
  {
    var other := area.Other(base);
    BaseFacts(area, mem2, base);
    BaseFacts(area, mem2, other);
    HeaderFrame(mem2, mem3, area, base, true);
    HoldsFrame(mem2, mem3, base, area.Size(), log);
    HoldsFrame(mem2, mem3, other, area.Size(), log2);
    if base == area.lo {
      SoundBecause(mem3, area, base, log);
    } else {
      SoundBecause(mem3, area, other, log2);
    }
    HeaderFrame(mem3, mem4, area, other, true);
    HoldsFrame(mem3, mem4, other, area.Size(), log2);
    HoldsFrame(mem3, mem4, base, area.Size(), log);
    SoundBecause(mem4, area, other, log2);
  }

  /** The entry a power cut leaves at `addr`: as long as intended, still invalid. */
  ghost function TornEntry(s: seq<Byte>, addr: nat, tag: Tag, len: nat): (e: Entry)
    requires addr + EntrySize(len) <= |s|
  {
    Entry(tag.(invalid := true), s[addr + 4..addr + 4 + len])
  }

  /** An image left by a power cut while an entry is being appended to `l`. */
  ghost predicate Torn(s: seq<Byte>, mem: seq<Byte>, base: nat, size: nat, l: seq<Entry>, tag: Tag, len: nat)
  {
    var addr := AddrOf(base, l, |l|);
    && AgreeOutside(s, mem, addr, addr + EntrySize(len))
    && addr + EntrySize(len) <= |s|
    && Holds(s, base, size, l + [TornEntry(s, addr, tag, len)])
  }

  lemma NoKeyBetween(log: seq<Entry>, i: nat, key: seq<Byte>)
    requires i <= |log|
    ensures forall k :: i <= k < FindFrom(log, i, ENTRY_ID_ANY, false) ==> !IsKeyNamed(log[k], key)
  {
    forall k | i <= k < FindFrom(log, i, ENTRY_ID_ANY, false) ensures !IsKeyNamed(log[k], key) {
      assert !Matches(log[k], ENTRY_ID_ANY, false);
    }
  }

  /** The name a C string is stored under: its length is kept in 16 bits. */
  function Stored(key: seq<Byte>): (r: seq<Byte>)
    ensures r <= key && |r| == |key| % 0x10000 && (|key| <= MAX_LEN ==> r == key)
  {
    key[..|key| % 0x10000]
  }
}
