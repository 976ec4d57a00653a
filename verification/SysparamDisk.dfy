/**
 How a log lies in flash bytes, and which of the two regions of a sysparam area a
 reader of the bare flash image would use.
 */
module SysparamDisk {
  import opened Flash
  import opened SysparamLog

  const REGION_HEADER_SIZE := 8
  const REGION_SECOND := 0x8000
  const REGION_ACTIVE := 0x4000
  const MAX_SECTORS := 0xfff
  const MAGIC: seq<Byte> := [0x45, 0x4f, 0x52, 0x70]

  // ----- little-endian halfwords -----

  function Half(mem: seq<Byte>, a: nat): (r: nat)
    requires a + 2 <= |mem|
    ensures r < 0x10000
  {
    var low: int, high: int := mem[a], mem[a + 1];
    low + 256 * high
  }

  function HalfBytes(x: nat): (r: seq<Byte>)
    requires x < 0x10000
    ensures |r| == 2 && Half(r, 0) == x
  {
    [x % 256, x / 256]
  }

  /** The headers of a region and of three entries as they are in flash, the lowest byte first. */
  lemma HeadersInFlash()
    ensures RegionHeader(RegionFlags(false, true, 2)) == [0x45, 0x4f, 0x52, 0x70, 0x02, 0x40, 0, 0]
    ensures RegionHeader(RegionFlags(true, false, 0x123)) == [0x45, 0x4f, 0x52, 0x70, 0x23, 0x81, 0, 0]
    ensures EntryHeader(EncodeTag(KeyTag(1)), 4) == [0x01, 0x80, 0x04, 0x00]
    ensures EntryHeader(EncodeTag(ValueTag(0xabc, true)), 0x1234) == [0xbc, 0xba, 0x34, 0x12]
    ensures EntryHeader(EncodeTag(ValueTag(2, false).(alive := false, invalid := true)), 0) == [0x02, 0x60, 0x00, 0x00]
    ensures EntrySize(0) == 4 && EntrySize(4) == 8 && EntrySize(5) == 12
  {
  }

  // ----- entries -----

  function EncodeTag(t: Tag): (f: nat)
    requires t.id < 0x1000
    ensures f < 0x10000
  {
    (if t.alive then 0x8000 else 0) + (if t.invalid then 0x4000 else 0)
    + (if t.isValue then 0x2000 else 0) + (if t.binary then 0x1000 else 0) + t.id
  }

  function DecodeTag(f: nat): (t: Tag)
    requires f < 0x10000
    ensures t.id < 0x1000
  {
    Tag(f / 0x8000 % 2 == 1, f / 0x4000 % 2 == 1, f / 0x2000 % 2 == 1, f / 0x1000 % 2 == 1, f % 0x1000)
  }

  lemma TagRoundTrip(t: Tag)
    requires t.id < 0x1000
    ensures DecodeTag(EncodeTag(t)) == t
    ensures t.id <= MAX_KEY_ID ==> EncodeTag(t) != 0xffff
  {
    var high := (if t.alive then 8 else 0) + (if t.invalid then 4 else 0) + (if t.isValue then 2 else 0) + if t.binary then 1 else 0;
    TagBits(high, t.id);
    assert EncodeTag(t) == high * 0x1000 + t.id;
  }

  /** Which bit says what: alive, invalid, value, binary from the top bit down, then the id. */
  lemma TagFormat(t: Tag)
    requires t.id < 0x1000
    ensures var f := EncodeTag(t);
            && (f / 0x8000 % 2 == 1 <==> t.alive) && (f / 0x4000 % 2 == 1 <==> t.invalid)
            && (f / 0x2000 % 2 == 1 <==> t.isValue) && (f / 0x1000 % 2 == 1 <==> t.binary) && f % 0x1000 == t.id
  {
    TagRoundTrip(t);
  }

  lemma TagBits(high: nat, id: nat)
    requires high < 16 && id < 0x1000
    ensures var f := high * 0x1000 + id;
            f % 0x1000 == id && f / 0x8000 == high / 8 && f / 0x4000 == high / 4 && f / 0x2000 == high / 2 && f / 0x1000 == high
  {
  }

  function EntryHeader(idflags: nat, len: nat): (r: seq<Byte>)
    requires idflags < 0x10000 && len < 0x10000
    ensures |r| == 4 && Half(r, 0) == idflags && Half(r, 2) == len
  {
    HalfBytes(idflags) + HalfBytes(len)
  }

  ghost predicate EntryAt(mem: seq<Byte>, a: nat, e: Entry)
  {
    && a + e.Size() <= |mem| && e.InFormat()
    && Half(mem, a) == EncodeTag(e.tag) && Half(mem, a + 2) == |e.payload|
    && mem[a + 4..a + 4 + |e.payload|] == e.payload
  }

  lemma EntryAtFrame(mem: seq<Byte>, mem': seq<Byte>, a: nat, e: Entry)
    requires EntryAt(mem, a, e) && Agree(mem, mem', a, a + e.Size())
    ensures EntryAt(mem', a, e)
  {
    assert mem'[a + 4..a + 4 + |e.payload|] == mem[a + 4..a + 4 + |e.payload|];
  }

  /** Where entry `i` of a log in the region at `base` lies. */
  function AddrOf(base: nat, log: seq<Entry>, i: nat): (a: nat)
    requires i <= |log|
  {
    base + REGION_HEADER_SIZE + Offset(log, i)
  }

  lemma AddrAligned(base: nat, log: seq<Entry>, i: nat)
    requires base % 4 == 0 && i <= |log|
    ensures AddrOf(base, log, i) % 4 == 0
  {
    OffsetAligned(log, i);
  }

  ghost predicate TileAt(mem: seq<Byte>, base: nat, log: seq<Entry>, i: nat)
    requires i < |log|
  {
    EntryAt(mem, AddrOf(base, log, i), log[i])
  }

  ghost predicate Tiles(mem: seq<Byte>, base: nat, log: seq<Entry>)
  {
    forall i :: 0 <= i < |log| ==> TileAt(mem, base, log, i)
  }

  /** The region at `base` holds exactly `log`, and everything after it is erased. */
  ghost predicate Holds(mem: seq<Byte>, base: nat, size: nat, log: seq<Entry>)
  {
    && base + size <= |mem|
    && REGION_HEADER_SIZE + Offset(log, |log|) <= size
    && Tiles(mem, base, log)
    && AllErased(mem, AddrOf(base, log, |log|), base + size)
  }

  lemma HoldsFrame(mem: seq<Byte>, mem': seq<Byte>, base: nat, size: nat, log: seq<Entry>)
    requires Holds(mem, base, size, log) && Agree(mem, mem', base + REGION_HEADER_SIZE, base + size)
    ensures Holds(mem', base, size, log)
  {
    forall i | 0 <= i < |log| ensures TileAt(mem', base, log, i) {
      assert TileAt(mem, base, log, i);
      OffsetMonotone(log, i, |log|);
      EntryAtFrame(mem, mem', AddrOf(base, log, i), log[i]);
    }
  }

  lemma HoldsNothing(mem: seq<Byte>, base: nat, size: nat)
    requires REGION_HEADER_SIZE <= size && AllErased(mem, base, base + size)
    ensures Holds(mem, base, size, [])
  {
  }

  lemma TileStays(mem: seq<Byte>, mem': seq<Byte>, base: nat, log: seq<Entry>, log': seq<Entry>, i: nat)
    requires i < |log| < |log'| && forall k :: 0 <= k < |log| ==> log'[k] == log[k]
    requires TileAt(mem, base, log, i) && Agree(mem, mem', base, AddrOf(base, log, |log|))
    ensures TileAt(mem', base, log', i)
  {
    OffsetPrefix(log, log', i);
    OffsetMonotone(log, i, |log|);
    EntryAtFrame(mem, mem', AddrOf(base, log, i), log[i]);
  }

  lemma OffsetExtend(log: seq<Entry>, log': seq<Entry>)
    requires |log'| == |log| + 1 && forall k :: 0 <= k < |log| ==> log'[k] == log[k]
    ensures Offset(log', |log|) == Offset(log, |log|)
    ensures Offset(log', |log'|) == Offset(log, |log|) + log'[|log|].Size()
  {
    OffsetPrefix(log, log', |log|);
    assert Offset(log', |log'|) == Offset(log', |log'| - 1) + log'[|log'| - 1].Size();
  }

  lemma TilesExtend(mem: seq<Byte>, mem': seq<Byte>, base: nat, log: seq<Entry>, log': seq<Entry>)
    requires |log'| == |log| + 1 && forall k :: 0 <= k < |log| ==> log'[k] == log[k]
    requires Tiles(mem, base, log) && Agree(mem, mem', base, AddrOf(base, log, |log|))
    requires EntryAt(mem', AddrOf(base, log, |log|), log'[|log|])
    ensures Tiles(mem', base, log')
  {
    forall i | 0 <= i < |log'| ensures TileAt(mem', base, log', i) {
      if i < |log| {
        assert TileAt(mem, base, log, i);
        TileStays(mem, mem', base, log, log', i);
      } else {
        OffsetExtend(log, log');
      }
    }
  }

  /** Writing one more entry into the erased space after the log. */
  lemma HoldsAppend(mem: seq<Byte>, mem': seq<Byte>, base: nat, size: nat, log: seq<Entry>, e: Entry)
    requires Holds(mem, base, size, log)
    requires AddrOf(base, log, |log|) + e.Size() <= base + size
    requires var end := AddrOf(base, log, |log|);
             AgreeOutside(mem', mem, end, end + e.Size()) && EntryAt(mem', end, e)
    ensures Holds(mem', base, size, log + [e])
    ensures Offset(log + [e], |log| + 1) == Offset(log, |log|) + e.Size()
  {
    OffsetExtend(log, log + [e]);
    TilesExtend(mem, mem', base, log, log + [e]);
  }

  /** Rewriting the entry at index `j` without changing its length. */
  lemma HoldsUpdate(mem: seq<Byte>, mem': seq<Byte>, base: nat, size: nat, log: seq<Entry>, j: nat, e: Entry)
    requires Holds(mem, base, size, log) && j < |log| && |e.payload| == |log[j].payload|
    requires var at := AddrOf(base, log, j);
             AgreeOutside(mem', mem, at, at + e.Size()) && EntryAt(mem', at, e)
    ensures Holds(mem', base, size, log[j := e])
    ensures Offset(log[j := e], |log|) == Offset(log, |log|)
  {
    var log' := log[j := e];
    OffsetPrefix(log, log', |log|);
    OffsetMonotone(log, j, |log|);
    forall i | 0 <= i < |log'| ensures TileAt(mem', base, log', i) {
      OffsetPrefix(log, log', i);
      if i != j {
        assert TileAt(mem, base, log, i);
        if i < j { OffsetMonotone(log, i, j); } else { OffsetMonotone(log, j, i); OffsetMonotone(log, i, |log|); }
        EntryAtFrame(mem, mem', AddrOf(base, log, i), log[i]);
      }
    }
  }

  // ----- reading a bare image -----

  /** The entries that a reader walking from `a` finds, up to erased space, the end
      of the region, or an entry too long to fit. */
  function Parse(mem: seq<Byte>, a: nat, limit: nat): (r: seq<Entry>)
    requires limit <= |mem|
    decreases if a <= limit then limit - a else 0
  {
    if a + 4 > limit || Half(mem, a) == 0xffff || a + EntrySize(Half(mem, a + 2)) > limit then []
    else
      [Entry(DecodeTag(Half(mem, a)), mem[a + 4..a + 4 + Half(mem, a + 2)])]
      + Parse(mem, a + EntrySize(Half(mem, a + 2)), limit)
  }

  lemma ParseEntry(mem: seq<Byte>, a: nat, limit: nat, e: Entry)
    requires limit <= |mem| && EntryAt(mem, a, e) && a + e.Size() <= limit
    ensures Parse(mem, a, limit) == [e] + Parse(mem, a + e.Size(), limit)
  {
    TagRoundTrip(e.tag);
  }

  lemma ParseErased(mem: seq<Byte>, a: nat, limit: nat)
    requires AllErased(mem, a, limit)
    ensures Parse(mem, a, limit) == []
  {
    if a + 4 <= limit { assert mem[a] == ERASED && mem[a + 1] == ERASED; }
  }

  lemma ParseStep(mem: seq<Byte>, base: nat, size: nat, log: seq<Entry>, i: nat)
    requires Holds(mem, base, size, log) && i < |log|
    ensures Parse(mem, AddrOf(base, log, i), base + size) == [log[i]] + Parse(mem, AddrOf(base, log, i + 1), base + size)
  {
    TileFacts(mem, base, size, log, i);
    ParseNext(mem, AddrOf(base, log, i), AddrOf(base, log, i + 1), base + size, log[i]);
  }

  lemma TileFacts(mem: seq<Byte>, base: nat, size: nat, log: seq<Entry>, i: nat)
    requires Holds(mem, base, size, log) && i < |log|
    ensures EntryAt(mem, AddrOf(base, log, i), log[i]) && AddrOf(base, log, i) + log[i].Size() == AddrOf(base, log, i + 1)
    ensures AddrOf(base, log, i + 1) <= base + size <= |mem|
  {
    OffsetMonotone(log, i + 1, |log|);
    assert TileAt(mem, base, log, i);
  }

  lemma ParseNext(mem: seq<Byte>, a: nat, next: nat, limit: nat, e: Entry)
    requires EntryAt(mem, a, e) && a + e.Size() == next <= limit <= |mem|
    ensures Parse(mem, a, limit) == [e] + Parse(mem, next, limit)
  {
    ParseEntry(mem, a, limit, e);
  }

  lemma FirstAndRest(log: seq<Entry>, i: nat)
    requires i < |log|
    ensures log[i..] == [log[i]] + log[i + 1..]
  {
  }

  lemma {:induction false} ParseHolds(mem: seq<Byte>, base: nat, size: nat, log: seq<Entry>, i: nat)
    requires Holds(mem, base, size, log) && i <= |log|
    ensures Parse(mem, AddrOf(base, log, i), base + size) == log[i..]
    decreases |log| - i
  {
    if i < |log| {
      ParseStep(mem, base, size, log, i);
      ParseHolds(mem, base, size, log, i + 1);
      FirstAndRest(log, i);
    } else {
      ParseErased(mem, AddrOf(base, log, i), base + size);
    }
  }

  lemma ParseWhole(mem: seq<Byte>, base: nat, size: nat, log: seq<Entry>)
    requires Holds(mem, base, size, log)
    ensures Parse(mem, base + REGION_HEADER_SIZE, base + size) == log
  {
    ParseHolds(mem, base, size, log, 0);
    assert log[0..] == log;
  }

  // ----- region headers -----

  predicate MagicAt(mem: seq<Byte>, a: nat)
  {
    a + REGION_HEADER_SIZE <= |mem| && mem[a..a + 4] == MAGIC
  }

  function RegionFlags(second: bool, active: bool, sectors: nat): (r: nat)
    requires sectors <= MAX_SECTORS
    ensures r < 0x10000
  {
    (if second then REGION_SECOND else 0) + (if active then REGION_ACTIVE else 0) + sectors
  }

  predicate IsSecond(flags: nat) { flags / REGION_SECOND % 2 == 1 }
  predicate IsActive(flags: nat) { flags / REGION_ACTIVE % 2 == 1 }
  function SectorsIn(flags: nat): (r: nat) { flags % 0x1000 }

  function RegionHeader(flags: nat): (r: seq<Byte>)
    requires flags < 0x10000
    ensures |r| == REGION_HEADER_SIZE
  {
    MAGIC + HalfBytes(flags) + [0, 0]
  }

  /** Two adjacent regions of `sectors` sectors each, the first starting at `lo`.
      Address 0 is excluded: the code uses it to mean "not initialised". */
  datatype Area = Area(lo: nat, sectors: nat) {
    function Size(): nat { sectors * SECTOR }
    function Hi(): nat { lo + Size() }
    function Other(base: nat): nat { if base == lo then Hi() else lo }
    predicate Fits(mem: seq<Byte>)
    {
      0 < lo && lo % SECTOR == 0 && 1 <= sectors <= MAX_SECTORS && Hi() + Size() <= |mem|
    }
    predicate IsBase(base: nat) { base == lo || base == Hi() }
  }

  ghost predicate HeaderIs(mem: seq<Byte>, area: Area, base: nat, active: bool)
  {
    && MagicAt(mem, base) && area.sectors <= MAX_SECTORS
    && Half(mem, base + 4) == RegionFlags(base != area.lo, active, area.sectors) && Half(mem, base + 6) == 0
  }

  /** The region used after a reset: the first one found, if it is active. */
  function Selected(mem: seq<Byte>, area: Area): (base: nat)
    requires area.Fits(mem)
    ensures area.IsBase(base)
  {
    if MagicAt(mem, area.lo) && IsActive(Half(mem, area.lo + 4)) then area.lo else area.Hi()
  }

  function DiskLog(mem: seq<Byte>, area: Area): (log: seq<Entry>)
    requires area.Fits(mem)
  {
    var base := Selected(mem, area);
    Parse(mem, base + REGION_HEADER_SIZE, base + area.Size())
  }

  /** An image from which a reset recovers: the selected region has an active header
      and holds a well-formed log; the other one has a proper header or none. */
  ghost predicate Sound(mem: seq<Byte>, area: Area)
  {
    && area.Fits(mem)
    && var base := Selected(mem, area);
    && HeaderIs(mem, area, base, true)
    && Outranks(mem, area, base)
    && Holds(mem, base, area.Size(), DiskLog(mem, area))
    && WellFormed(DiskLog(mem, area))
  }

  /** The other region's header, if any, does not outrank the one at `base`. */
  ghost predicate Outranks(mem: seq<Byte>, area: Area, base: nat)
  {
    MagicAt(mem, area.Other(base)) ==>
      || HeaderIs(mem, area, area.Other(base), false)
      || (HeaderIs(mem, area, area.Other(base), true) && base == area.lo)
  }

  lemma SelectedBecause(mem: seq<Byte>, area: Area, base: nat)
    requires area.Fits(mem) && area.IsBase(base) && HeaderIs(mem, area, base, true) && Outranks(mem, area, base)
    ensures Selected(mem, area) == base
  {
  }

  lemma SoundBecause(mem: seq<Byte>, area: Area, base: nat, log: seq<Entry>)
    requires area.Fits(mem) && area.IsBase(base)
    requires HeaderIs(mem, area, base, true) && Holds(mem, base, area.Size(), log) && WellFormed(log)
    requires Outranks(mem, area, base)
    ensures Sound(mem, area) && Selected(mem, area) == base && DiskLog(mem, area) == log
  {
    SelectedBecause(mem, area, base);
    DiskLogBecause(mem, area, base, log);
  }

  lemma DiskLogBecause(mem: seq<Byte>, area: Area, base: nat, log: seq<Entry>)
    requires area.Fits(mem) && Selected(mem, area) == base && area.IsBase(base) && Holds(mem, base, area.Size(), log)
    ensures DiskLog(mem, area) == log
  {
    ParseWhole(mem, base, area.Size(), log);
  }

  /** A write elsewhere leaves what a reset would find. */
  lemma SoundFrame(mem: seq<Byte>, mem': seq<Byte>, area: Area)
    requires Sound(mem, area) && |mem'| == |mem|
    requires var base := Selected(mem, area);
             Agree(mem, mem', base, base + area.Size()) && Outranks(mem', area, base)
    ensures Sound(mem', area) && Selected(mem', area) == Selected(mem, area) && DiskLog(mem', area) == DiskLog(mem, area)
  {
    var base := Selected(mem, area);
    assert mem'[base..base + 4] == mem[base..base + 4];
    HoldsFrame(mem, mem', base, area.Size(), DiskLog(mem, area));
    SoundBecause(mem', area, base, DiskLog(mem, area));
  }

  /** The two images differ only inside the area. */
  ghost predicate OnlyIn(s: seq<Byte>, mem: seq<Byte>, area: Area)
  {
    AgreeOutside(s, mem, area.lo, area.Hi() + area.Size())
  }

  lemma OnlyInRegion(s: seq<Byte>, mem: seq<Byte>, home: seq<Byte>, area: Area, base: nat)
    requires OnlyIn(mem, home, area) && area.IsBase(base) && AgreeOutside(s, mem, base, base + area.Size())
    ensures OnlyIn(s, home, area)
  {
  }
}
