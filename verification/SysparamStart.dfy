/**
 Restarts: how the system finds or creates its sysparam area, and what it meets after a
 power cut in the middle of creating one.
 */
module SysparamStart {
  import opened Flash
  import opened SysparamLog
  import opened SysparamDisk
  import opened SysparamFlash
  import opened SysparamSet
  import opened Sysparam

  const DEFAULT_SECTORS: nat := 4
  const CONFIG_SECTORS: nat := 4  // at the top of flash

  /** Where the system's own area starts. */
  function DefaultBase(flashSize: nat): (r: nat)
    requires (CONFIG_SECTORS + DEFAULT_SECTORS) * SECTOR <= flashSize && flashSize % SECTOR == 0
    ensures r % SECTOR == 0 && r + (CONFIG_SECTORS + DEFAULT_SECTORS) * SECTOR == flashSize
  {
    flashSize - (CONFIG_SECTORS + DEFAULT_SECTORS) * SECTOR
  }

  /** Looks for an area up to the end of flash.  Only if there is no magic at all is one
      created, and only on erased flash; a stale header found alone is left as it is. */
  method Startup(store: Store, flashSize: nat, ghost a: Area) returns (status: Status)
    requires flashSize % SECTOR == 0 && (CONFIG_SECTORS + DEFAULT_SECTORS) * SECTOR < flashSize <= |store.chip.mem|
    modifies store, store.chip
    ensures var base := DefaultBase(flashSize);
            && (Reachable(old(store.chip.mem), a, base, flashSize) ==>
                  status == Ok && store.Restored(a, old(store.chip.mem), old(store.chip.cuts)))
            && (StaleFound(old(store.chip.mem), a, base, flashSize) ==>
                  status == ErrCorrupt && unchanged(store) && unchanged(store.chip))
            && (NothingFound(old(store.chip.mem), base, flashSize) ==>
                  && (status == Ok <==> CreatesOn(old(store.chip.mem), base, base + DEFAULT_SECTORS * SECTOR))
                  && (status == Ok ==> store.Valid() && store.log == [] && store.area == Area(base, DEFAULT_SECTORS / 2))
                  && (status != Ok ==> unchanged(store) && unchanged(store.chip)))
  {
    var base := DefaultBase(flashSize);
    status := store.Init(base, flashSize, a);
    if status == NotFound {
      status := store.CreateThenInit(base, DEFAULT_SECTORS, false);
    }
  }

  /** The search up to `top` can meet no other header than those of the area. */
  ghost predicate OnlyItsOwn(s: seq<Byte>, a: Area, top: nat)
  {
    && a.Hi() < top <= |s| && top % SECTOR == 0
    && forall x :: a.lo < x < top && x % SECTOR == 0 && x != a.Hi() ==> !MagicAt(s, x)
  }

  /** What a restart meets after a power cut while an area is created again over itself.
      Once the new first header is there, the area is empty.  Before that the first header
      is gone, and all depends on the second one: if it is gone too, nothing is found; if it
      was the active one, the old log comes back; if it was stale, the restart fails; and if
      it was active beside an active first one, the restart takes up the second region. */
  lemma RestartAfterCreate(mem: seq<Byte>, s: seq<Byte>, a: Area, top: nat)
    requires Sound(mem, a) && |s| == |mem| && MidCreate(s, mem, a) && OnlyItsOwn(s, a, top)
    ensures if MagicAt(s, a.lo) then Recovers(s, a, []) && Reachable(s, a, a.lo, top)
            else if !MagicAt(s, a.Hi()) then NothingFound(s, a.lo, top)
            else if Selected(mem, a) == a.Hi() then Recovers(s, a, DiskLog(mem, a)) && Reachable(s, a, a.lo, top)
            else if !IsActive(Half(mem, a.Hi() + 4)) then StaleFound(s, a, a.lo, top)
            else HeaderIs(s, a, a.Hi(), true) && Selected(s, a) == a.Hi() && FoundFirst(s, a.lo, top, a.Hi())
  {
    BaseFacts(a, mem, a.lo);
    BaseFacts(a, mem, a.Hi());
    assert SearchFrom(a.lo) == a.lo && SearchTop(a.lo, top) == top;
    if MagicAt(s, a.lo) {
      FirstStays(s, a);
    } else if !MagicAt(s, a.Hi()) {
      InSearch(s, top);
    } else {
      SecondStays(mem, s, a);
      assert FoundFirst(s, a.lo, top, a.Hi());
    }
  }

  lemma FirstStays(s: seq<Byte>, a: Area)
    requires a.Fits(s) && MagicAt(s, a.lo)
    ensures !AllErased(s, a.lo, a.lo + REGION_HEADER_SIZE)
  {
    assert s[a.lo] == s[a.lo..a.lo + 4][0] == MAGIC[0];
  }

  lemma InSearch(s: seq<Byte>, top: nat)
    requires top <= |s| && top % SECTOR == 0
    ensures forall x :: 0 <= x < top && x % SECTOR == 0 ==> x + REGION_HEADER_SIZE <= |s|
  {
    forall x | 0 <= x < top && x % SECTOR == 0 ensures x + REGION_HEADER_SIZE <= |s| { NextSector(x, top); }
  }

  lemma NextSector(x: nat, top: nat)
    requires x < top && x % SECTOR == 0 && top % SECTOR == 0
    ensures x + SECTOR <= top
  {
  }

  /** While the second header is still there, the second region is as it was. */
  lemma SecondStays(mem: seq<Byte>, s: seq<Byte>, a: Area)
    requires Sound(mem, a) && |s| == |mem| && HeaderGone(s, mem, a) && MagicAt(s, a.Hi())
    ensures if Selected(mem, a) == a.Hi() then Recovers(s, a, DiskLog(mem, a)) && Selected(s, a) == a.Hi()
            else !MagicAt(s, a.lo) && HeaderIs(s, a, a.Hi(), IsActive(Half(mem, a.Hi() + 4))) && Selected(s, a) == a.Hi()
  {
    assert s[a.Hi()] == s[a.Hi()..a.Hi() + 4][0] == MAGIC[0];
    assert MidFormat(s, mem, a.lo, a.sectors);
    assert s[a.lo] == ERASED;
    if Selected(mem, a) == a.Hi() {
      BeforeSwitch(mem, s, s, a, a.Hi());
    } else {
      assert s[a.Hi()..a.Hi() + 4] == mem[a.Hi()..a.Hi() + 4];
      FlagsMean(true, false, a.sectors);
      FlagsMean(true, true, a.sectors);
    }
  }
}
