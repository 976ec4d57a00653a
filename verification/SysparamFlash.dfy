/**
 The primitive flash updates of the sysparam code, each with the images a power cut
 inside it can leave.
 */
module SysparamFlash {
  import opened Flash
  import opened SysparamLog
  import opened SysparamDisk

  /** The entry at `at` has its length, but is still marked invalid. */
  ghost predicate Unfinished(s: seq<Byte>, at: nat, tag: Tag, len: nat)
  {
    at + EntrySize(len) <= |s| && EntryAt(s, at, Entry(tag.(invalid := true), s[at + 4..at + 4 + len]))
  }

  /** An image left by a power cut while an entry is being written at `at`. */
  ghost predicate MidWrite(s: seq<Byte>, mem: seq<Byte>, at: nat, tag: Tag, len: nat)
  {
    AgreeOutside(s, mem, at, at + EntrySize(len)) && Unfinished(s, at, tag, len)
  }

  /** Writes, reads back in chunks, and reports whether they agree. */
  method WriteAndVerify(chip: Chip, addr: nat, data: seq<Byte>) returns (ok: bool)
    requires addr + RoundUp(|data|) <= |chip.mem|
    modifies chip
    ensures AgreeOutside(chip.mem, old(chip.mem), addr, addr + RoundUp(|data|))
    ensures ok <==> chip.mem[addr..addr + |data|] == data
    ensures Programmable(old(chip.mem), addr, data) ==> ok
    ensures old(chip.cuts) <= chip.cuts
    ensures forall s :: s in chip.cuts ==>
              s in old(chip.cuts) || AgreeOutside(s, old(chip.mem), addr, addr + RoundUp(|data|))
    ensures addr % PAGE + RoundUp(|data|) <= PAGE ==> chip.cuts == old(chip.cuts) + {chip.mem}
  {
    chip.Write(addr, data);
    var written := chip.mem[addr..addr + |data|];
    ok := true;
    var i := 0;
    while i < |data| && ok
      invariant 0 <= i <= |data|
      invariant ok <==> written[..i] == data[..i]
      decreases |data| - i
    {
      var count := if |data| - i < 64 then |data| - i else 64;
      ok := written[i..i + count] == data[i..i + count];
      assert written[..i + count] == written[..i] + written[i..i + count];
      assert data[..i + count] == data[..i] + data[i..i + count];
      i := i + count;
    }
    assert data[..|data|] == data && written[..|data|] == written;
  }

  /** Clears the ALIVE bit of the entry at `addr`. */
  method DeleteEntry(chip: Chip, addr: nat, ghost e: Entry)
    requires addr % 4 == 0 && EntryAt(chip.mem, addr, e)
    modifies chip
    ensures EntryAt(chip.mem, addr, e.Killed()) && AgreeOutside(chip.mem, old(chip.mem), addr, addr + 4)
    ensures chip.cuts == old(chip.cuts) + {chip.mem}
  {
    var tag, len := DecodeTag(Half(chip.mem, addr)), Half(chip.mem, addr + 2);
    var header := EntryHeader(EncodeTag(tag.(alive := false)), len);
    ghost var mem := chip.mem;
    TagRoundTrip(e.tag);
    KillsInPlace(mem, addr, e.tag);
    InOnePage(addr);
    chip.Write(addr, header);
    KilledEntry(mem, chip.mem, addr, e);
  }

  /** A word-aligned header never straddles a page boundary. */
  lemma InOnePage(addr: nat)
    requires addr % 4 == 0
    ensures addr % PAGE + RoundUp(4) <= PAGE
  {
  }

  /** Erases `sectors` sectors from `addr` on, lowest first. */
  method FormatRegion(chip: Chip, addr: nat, sectors: nat)
    requires addr % SECTOR == 0 && addr + sectors * SECTOR <= |chip.mem|
    modifies chip
    ensures AgreeOutside(chip.mem, old(chip.mem), addr, addr + sectors * SECTOR)
    ensures AllErased(chip.mem, addr, addr + sectors * SECTOR)
    ensures old(chip.cuts) <= chip.cuts
    ensures forall s :: s in chip.cuts ==> s in old(chip.cuts) || MidFormat(s, old(chip.mem), addr, sectors)
  {
    var sector := addr / SECTOR;
    var i := 0;
    while i < sectors
      invariant 0 <= i <= sectors
      invariant AgreeOutside(chip.mem, old(chip.mem), addr, addr + i * SECTOR)
      invariant AllErased(chip.mem, addr, addr + i * SECTOR)
      invariant old(chip.cuts) <= chip.cuts
      invariant forall s :: s in chip.cuts ==> s in old(chip.cuts) || MidFormat(s, old(chip.mem), addr, sectors)
    {
      assert (sector + i) * SECTOR == addr + i * SECTOR;
      chip.EraseSector(sector + i);
      i := i + 1;
      assert AllErased(chip.mem, addr, addr + i * SECTOR);
      assert MidFormat(chip.mem, old(chip.mem), addr, sectors);
    }
  }

  /** Writes the header of the region at `addr`, whose twin is at `other`. */
  method WriteRegionHeader(chip: Chip, addr: nat, other: nat, active: bool, ghost area: Area)
    requires area.Fits(chip.mem) && area.IsBase(addr) && other == area.Other(addr)
    requires AllErased(chip.mem, addr, addr + 8) || (HeaderIs(chip.mem, area, addr, true) && !active)
    modifies chip
    ensures AgreeOutside(chip.mem, old(chip.mem), addr, addr + 8)
    ensures HeaderIs(chip.mem, area, addr, active)
    ensures chip.cuts == old(chip.cuts) + {chip.mem}
  {
    var sectors := (if addr < other then other - addr else addr - other) / SECTOR;
    var flags := RegionFlags(addr > other, active, sectors % 0x1000);
    var header := RegionHeader(flags);
    ghost var mem := chip.mem;
    BaseFacts(area, mem, addr);
    assert sectors == area.sectors && flags == RegionFlags(addr != area.lo, active, area.sectors);
    if AllErased(mem, addr, addr + 8) {
      ErasedIsProgrammable(mem, addr, header);
    } else {
      DemotesInPlace(mem, area, addr);
    }
    assert addr % PAGE + RoundUp(8) <= PAGE;
    var ok := WriteAndVerify(chip, addr, header);
    assert ok;
    RegionHeaderReads(chip.mem, addr, flags);
  }

  lemma UnfinishedBecause(mem: seq<Byte>, s: seq<Byte>, addr: nat, tag: Tag, len: nat)
    requires addr + EntrySize(len) <= |mem| && tag.id <= MAX_KEY_ID && len <= MAX_LEN
    requires mem[addr..addr + 4] == EntryHeader(EncodeTag(tag.(invalid := true)), len)
    requires AgreeOutside(s, mem, addr + 4, addr + EntrySize(len))
    ensures Unfinished(s, addr, tag, len)
  {
    assert s[addr..addr + 4] == mem[addr..addr + 4];
    HeaderReads(s, addr, EncodeTag(tag.(invalid := true)), len);
  }

  lemma HeaderReads(mem: seq<Byte>, addr: nat, idflags: nat, len: nat)
    requires addr + 4 <= |mem| && idflags < 0x10000 && len < 0x10000
    requires mem[addr..addr + 4] == EntryHeader(idflags, len)
    ensures Half(mem, addr) == idflags && Half(mem, addr + 2) == len
  {
  }

  /** Clearing a flag, once it is set, is something flash can do. */
  lemma ClearsInPlace(mem: seq<Byte>, addr: nat, f: nat, weight: nat, len: nat)
    requires addr + 4 <= |mem| && f < 0x10000 && len < 0x10000 && Half(mem, addr) == f && Half(mem, addr + 2) == len
    requires (weight == 0x4000 || weight == 0x8000) && f / weight % 2 == 1
    ensures Programmable(mem, addr, EntryHeader(f - weight, len))
  {
    var h := EntryHeader(f - weight, len);
    ClearedHigh(f, weight);
    HalfSplits(mem, addr);
    HalfSplits(mem, addr + 2);
    forall i | 0 <= i < 4 ensures And(mem[addr + i], h[i]) == h[i] {
      if i == 1 { AndClears(mem[addr + 1]); } else { BitAndSame(h[i]); }
    }
  }

  lemma HalfSplits(mem: seq<Byte>, a: nat)
    requires a + 2 <= |mem|
    ensures mem[a] == Half(mem, a) % 256 && mem[a + 1] == Half(mem, a) / 256
  {
  }

  lemma ClearedHigh(f: nat, weight: nat)
    requires f < 0x10000 && (weight == 0x4000 || weight == 0x8000) && f / weight % 2 == 1
    ensures weight <= f && (f - weight) % 256 == f % 256 && (f - weight) / 256 == f / 256 - weight / 256
    ensures if weight == 0x4000 then f / 256 / 64 % 2 == 1 else f / 256 / 128 % 2 == 1
  {
  }

  lemma ValidatesInPlace(mem: seq<Byte>, addr: nat, tag: Tag, len: nat)
    requires addr + 4 <= |mem| && tag.id <= MAX_KEY_ID && !tag.invalid && len < 0x10000
    requires mem[addr..addr + 4] == EntryHeader(EncodeTag(tag.(invalid := true)), len)
    ensures Programmable(mem, addr, EntryHeader(EncodeTag(tag), len))
  {
    var t := tag.(invalid := true);
    HeaderReads(mem, addr, EncodeTag(t), len);
    TagRoundTrip(t);
    ClearsInPlace(mem, addr, EncodeTag(t), 0x4000, len);
  }

  /** An image left by a power cut while a region is being erased: the header, in
      the first sector, is already gone. */
  ghost predicate MidFormat(s: seq<Byte>, mem: seq<Byte>, addr: nat, sectors: nat)
  {
    AgreeOutside(s, mem, addr, addr + sectors * SECTOR) && AllErased(s, addr, addr + 8)
  }

  lemma KilledEntry(mem: seq<Byte>, mem': seq<Byte>, addr: nat, e: Entry)
    requires EntryAt(mem, addr, e) && AgreeOutside(mem', mem, addr, addr + 4)
    requires forall i :: 0 <= i < 4 ==> mem'[addr + i] == EntryHeader(EncodeTag(e.Killed().tag), |e.payload|)[i]
    ensures EntryAt(mem', addr, e.Killed())
  {
    var header := EntryHeader(EncodeTag(e.Killed().tag), |e.payload|);
    assert mem'[addr..addr + 4] == header;
    HeaderReads(mem', addr, EncodeTag(e.Killed().tag), |e.payload|);
    assert mem'[addr + 4..addr + 4 + |e.payload|] == mem[addr + 4..addr + 4 + |e.payload|];
  }

  lemma KillsInPlace(mem: seq<Byte>, addr: nat, t: Tag)
    requires addr + 4 <= |mem| && t.id <= MAX_KEY_ID && Half(mem, addr) == EncodeTag(t)
    ensures Programmable(mem, addr, EntryHeader(EncodeTag(t.(alive := false)), Half(mem, addr + 2)))
  {
    var len := Half(mem, addr + 2);
    if t.alive {
      TagRoundTrip(t);
      ClearsInPlace(mem, addr, EncodeTag(t), 0x8000, len);
    } else {
      StaysInPlace(mem, addr);
    }
  }

  lemma StaysInPlace(mem: seq<Byte>, addr: nat)
    requires addr + 4 <= |mem|
    ensures Programmable(mem, addr, EntryHeader(Half(mem, addr), Half(mem, addr + 2)))
  {
    var h := EntryHeader(Half(mem, addr), Half(mem, addr + 2));
    HalfSplits(mem, addr);
    HalfSplits(mem, addr + 2);
    forall i | 0 <= i < 4 ensures And(mem[addr + i], h[i]) == h[i] { BitAndSame(h[i]); }
  }

  lemma RegionHeaderReads(mem: seq<Byte>, addr: nat, flags: nat)
    requires addr + 8 <= |mem| && flags < 0x10000 && mem[addr..addr + 8] == RegionHeader(flags)
    ensures MagicAt(mem, addr) && Half(mem, addr + 4) == flags && Half(mem, addr + 6) == 0
  {
    assert mem[addr..addr + 4] == mem[addr..addr + 8][..4];
    assert RegionHeader(flags)[..4] == MAGIC;
    assert mem[addr + 4] == RegionHeader(flags)[4] && mem[addr + 5] == RegionHeader(flags)[5];
    assert mem[addr + 6] == RegionHeader(flags)[6] && mem[addr + 7] == RegionHeader(flags)[7];
  }

  /** Turning an active header into a stale one only clears a bit. */
  lemma DemotesInPlace(mem: seq<Byte>, area: Area, addr: nat)
    requires area.sectors <= MAX_SECTORS && HeaderIs(mem, area, addr, true)
    ensures Programmable(mem, addr, RegionHeader(RegionFlags(addr != area.lo, false, area.sectors)))
  {
    var f := Half(mem, addr + 4);
    var h := RegionHeader(f - REGION_ACTIVE);
    assert h == RegionHeader(RegionFlags(addr != area.lo, false, area.sectors));
    forall i | 0 <= i < 8 ensures And(mem[addr + i], h[i]) == h[i] {
      DemotedByte(mem, addr, f, i);
    }
  }

  lemma DemotedByte(mem: seq<Byte>, addr: nat, f: nat, i: nat)
    requires MagicAt(mem, addr) && f < 0x10000 && IsActive(f)
    requires Half(mem, addr + 4) == f && Half(mem, addr + 6) == 0 && i < 8
    ensures And(mem[addr + i], RegionHeader(f - REGION_ACTIVE)[i]) == RegionHeader(f - REGION_ACTIVE)[i]
  {
    var h := RegionHeader(f - REGION_ACTIVE);
    if i < 4 {
      assert h[i] == MAGIC[i] == mem[addr..addr + 4][i] == mem[addr + i];
      BitAndSame(mem[addr + i]);
    } else if i < 6 {
      ClearedHigh(f, 0x4000);
      HalfSplits(mem, addr + 4);
      if i == 5 { AndClears(mem[addr + 5]); } else { BitAndSame(mem[addr + i]); }
    } else {
      HalfSplits(mem, addr + 6);
      BitAndSame(mem[addr + i]);
    }
  }

  lemma BaseFacts(area: Area, mem: seq<Byte>, base: nat)
    requires area.Fits(mem) && area.IsBase(base)
    ensures base % SECTOR == 0 && base % PAGE == 0 && base % 4 == 0 && base + area.Size() <= |mem|
    ensures SECTOR <= area.Size() && area.Size() / SECTOR == area.sectors
  {
    SectorFacts(area.lo, area.sectors);
    Aligned(area.lo);
    Aligned(area.Hi());
  }

  lemma Aligned(addr: nat)
    requires addr % SECTOR == 0
    ensures addr % PAGE == 0 && addr % 4 == 0
  {
    Divides(addr, PAGE, addr / SECTOR * 16);
    Divides(addr, 4, addr / SECTOR * 1024);
  }

  lemma Divides(n: int, d: int, q: int)
    requires 0 < d && n == q * d
    ensures n % d == 0
  {
    var k := n / d - q;
    assert n == d * (n / d) + n % d;
    assert n % d == -d * k;
    assert k > 0 ==> d * k >= d;
    assert k < 0 ==> d * k <= -d;
  }

  lemma SectorFacts(addr: nat, sectors: nat)
    requires addr % SECTOR == 0 && 1 <= sectors
    ensures 12 <= sectors * SECTOR && sectors * SECTOR / SECTOR == sectors
    ensures (addr + sectors * SECTOR) % SECTOR == 0
    ensures sectors * SECTOR <= addr ==> (addr - sectors * SECTOR) % SECTOR == 0
  {
  }
}
