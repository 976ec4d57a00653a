# Verification of esp-open-rtos core logic

A Dafny model of the parts of esp-open-rtos whose correctness is hardest to see, with proofs.
`dafny verify dfyconfig.toml` checks all of it.

**The sysparam store** (`Flash`, `Sysparam*`). A key/value store on NOR flash, where programming
only clears bits and erasing works by sector. The log of entries is a value (`SysparamLog`),
compaction a function on it (`SysparamCompact`), and a set a function of the log and the space
(`SysparamSet`). `SysparamDisk` ties a log to the bytes of a region, `SysparamScan` does the same
for the scanning loop, and the class `Sysparam.Store` has the fields of `_sysparam_info` and one
method for each routine of the source, proved against those functions. The chip keeps, as a ghost,
every image that a power cut after any page program or sector erase could leave behind; every
routine states what a reset would recover from each of them. Main results: over every run without
power cuts the log refines a map, for exactly the keys that have not gone astray
(`SysparamHidden.RunRefines`); compaction keeps the map and is safe to interrupt
(`Sysparam.Store.Compact`), a set is atomic under power cuts (`SysparamSet.CutIsAtomic`,
`SysparamCrash.ReadAfterCut`), a set is refused only if nothing would make room
(`SysparamSpace.FullMeansFull`), and over any number of interrupted calls keys that are not named keep
their values (`SysparamRuns.CutRunKeeps`) and those that are read nothing that was not meant for
them (`SysparamOwners.CutRunReadsItsOwn`).

**The FreeRTOS kernel** (`Kernel*`). `KernelList` is the intrusive circular list on the heap, with
its pointer writes. `KernelTime` shows that two lists of wrapped wake times, a 32-bit tick count and
pended ticks stand for absolute deadlines in unbounded time, whatever calls the kernel gets
(`KernelTime.Perform`); `KernelTimers` the same for the timer daemon (`KernelTimers.Serve`), where a
reloading timer fires exactly at its multiples and any other one once (`KernelOneShot`). `KernelMutex`
has the books of priority inheritance, `KernelTasks` the state lists and task selection,
`KernelTaskOrder` the order in which tasks of one level get their turns, `KernelEvents` event groups
and the rendezvous, `KernelQueue` the ring, its event lists and the lock counts. Each API critical
section is one atomic step. In `KernelQueue` the invariants `ReceiversAnswered` and
`SendersAnswered` say that no wake-up is lost: while somebody waits, each item (or free place) has a
woken task that has not looked yet, or a count that unlocking will turn into one; so when nothing is
locked and nobody has been woken, a waiting receiver means an empty queue.

**Codecs** (`Slip`, `Mqtt`, `Image`, `ImageFormat`, `Rboot`, `RbootNew`). SLIP framing (RFC 1055),
MQTT PUBLISH packets (sections 2.2.3 and 3.3 of MQTT 3.1.1), and the firmware image pipeline: writer
and loader from `esptool.py`, checker and loader from rboot, proved to agree.

## Where the code falls short

Each of these is proved, with the exact condition where there is one.

- `sysparam_set_data` can report success without effect. It takes effect if and only if
  `SysparamSet.WillTakeEffect`: a call that compacts must not name a key whose value was deleted,
  and one that does not must not find a second live value behind the key's own.
- Setting a key whose value was deleted, in a call that compacts, loses the value
  (`SysparamRuns.OrphanIsLost`) and more: it is filed under the key's old id, and if the compaction
  has given that id to another key, it lies hidden behind that key's value, without any power cut
  (`SysparamHidden.OrphanHidesBehind`). Unsetting or replacing that other key then reports success
  and makes it read as the hidden value (`SysparamHidden.UnsetShowsAnotherKeysValue`,
  `SysparamRuns.HiddenValueSurfaces`). Over every run at most one value is hidden at a time, and
  `SysparamHidden.RunRefines` says exactly which keys read as the callers were told. A power cut
  between writing a new value and deleting the old one leaves a second live value too.
- A set that reports a full region has deleted the old value if and only if the scan counted more
  keys than values, which makes it compact on speculation
  (`SysparamSet.FullLosesOnlySpeculatively`, `SysparamRuns.FullCanLoseTheValue`).
- With a hidden second value in the log a set can also report a full region although compacting would
  have made the room (`SysparamSpace.FullTooEarly`); in a clean log, with ids left, it cannot
  (`SysparamSpace.FullMeansFull`).
- A search of one sector misses an area whose first region was being erased when the power failed,
  although the second region is complete (`Sysparam.OneSectorFinds`, `Sysparam.OneSectorMisses`).
  The system searches one sector only right after creating an area; a restart searches up to the
  end of flash. And creating an area without force is refused if any of the 24 bytes behind it is in
  use (`Sysparam.Store.ScanEmpty`).
- A power cut while an area is created again over itself can bring the old log back, or leave a
  stale header alone, which every restart then refuses without creating the area again; or leave
  nothing to be found on flash that is not erased, which is not created again either
  (`SysparamStart.RestartAfterCreate`, `SysparamStart.Startup`).
- `xTaskCheckForTimeOut` is right if and only if `KernelTime.TimeOutSees`, that is, short of a
  second wrap of the tick count that ends less than the wait before the start
  (`KernelTime.TimeOutMissed`); `vTaskDelayUntil` if and only if `KernelTime.DelayUntilSees`
  (`KernelTime.DelayUntilMissed`); and the timer daemon keeps a schedule if and only if each of its
  own commands is carried out less than a full turn of the tick count late
  (`KernelTimers.HandleKeepsSchedule`, `KernelTimers.HandledTooLate`).
- A task that uses an inherited priority goes on using it when its own is set higher, while its
  place in event lists follows its own (`KernelTasks.Scheduler.SetPriority`,
  `KernelTasks.UsesLessThanItsOwn`).
- `xQueueGenericReset` wakes one sender however much room it makes; another one is left waiting
  beside free room exactly if there was one and the wake-ups on their way do not cover the length
  (`KernelQueue.Queue.Reset`, `KernelQueue.ResetStrandsASender`).
- Overwriting a queue of empty items adds a message instead of replacing one, unless it is empty
  (`KernelQueue.Queue.CopyDataToQueue`, `KernelQueue.OverwritesTwice`).
- The 8-bit lock counts are exact up to 127 posts and wrap after that (`KernelQueue.CountIsExact`).
- `mqtt_packet_len` is one too high at the remaining lengths 127, 16383, 2097150 and 2097151, and
  too low from 128^4 on (`Mqtt.EstimateBounds`); a topic over 65535 bytes does not survive
  (`Mqtt.PublishRoundTrip`), and a topic given in two forms of different lengths gets a wrong
  remaining length (`Mqtt.WritesPacket`). `mqtt_deserialize_publish` reports success for a PUBLISH
  whose topic does not fit, if its length field is one byte, since the return code still holds the
  size of that field (`Mqtt.BadTopicLooksFine`); and for one with no room for its packet id, with a
  negative payload length (`Mqtt.MissingIdLooksFine`).

## Model

| member | source | states |
|---|---|---|
| `Flash.AndClears` | core/sysparam.c:384-402 | clearing flag bit 6 or 7 of a flash byte is something programming can do, since a program only ands bits away |
| `Flash.BitsOfAnd` | open_esplibs/libmain/spi_flash.c:54-91 | a bit of what programming leaves is set exactly if it was set and is set in the data |
| `Flash.ProgramMore` | open_esplibs/libmain/spi_flash.c:72-90 | programming a buffer page after page leaves the same image as programming it at once, and touches nothing outside it |
| `Flash.ErasedIsProgrammable` | core/sysparam.c:136-157 | anything can be programmed exactly into erased flash |
| `Flash.Chip.Write` | open_esplibs/libmain/spi_flash.c:165-182 | the data is anded in, nothing outside the word-rounded range changes, and every image that a power cut between two page programs can leave differs from the old one only there |
| `Flash.Chip.ProgramPages` | open_esplibs/libmain/spi_flash.c:54-91 | page-wise programming, with the images left by a power cut after each page |
| `Flash.Chip.EraseSector` | open_esplibs/libmain/spi_flash.c:151-160 | a sector becomes 0xff, the rest stays |
| `SysparamLog.AppendLookup` | core/sysparam.c:224-295 | an entry appended to the log changes what a key reads only if it is a live value with that key's id and the key had none |
| `SysparamLog.KillLookup` | core/sysparam.c:392-404 | deleting the value that a key reads lets its second value, if any, show through, and changes no other key |
| `SysparamLog.AppendNewKey` | core/sysparam.c:944-950 | a new key under a fresh id leaves every lookup alone and keeps live key ids strictly increasing |
| `SysparamLog.AppendWellFormed` | core/sysparam.c:342-389 | appending keeps live names distinct and live ids increasing |
| `SysparamLog.KillWellFormed` | core/sysparam.c:392-404 | deleting a value keeps the log well formed |
| `SysparamLog.OtherValue` | core/sysparam.c:336-339 | two keys never read the same value entry |
| `SysparamLog.KeyFromUnique` | core/sysparam.c:305-333 | a live key's entry is the only one found under its name |
| `SysparamCompact.ItemsLookup` | core/sysparam.c:1029-1080 | iteration yields exactly the map that lookups read |
| `SysparamCompact.RenumberedNeverMatches` | core/sysparam.c:437-451 | updating the caller's id while copying is sound: once renumbered it can match no later old id |
| `SysparamCompact.CompactionMeaning` | core/sysparam.c:418-487 | compaction keeps every pair except the value of the id being replaced, and keeps the log well formed |
| `SysparamCompact.CompactionNewId` | core/sysparam.c:445-446 | a key with a value ends up under the id that the caller's id was updated to |
| `SysparamCompact.CompactionForgetsOrphan` | core/sysparam.c:1045-1060 | a key left without a value is dropped by compaction and the caller's id is not renumbered |
| `SysparamCompact.CompactionFits` | core/sysparam.c:874-884 | compaction frees at least every byte that the scan counted as compactable |
| `SysparamCompact.CompactionFitsSoFar` | core/sysparam.c:433-482 | the copy never outgrows the log it is made from, so it fits the new region at every point |
| `SysparamCompact.CompactionFreesIds` | core/sysparam.c:916-927 | more keys than values means that renumbering frees an id |
| `SysparamCompact.ItemOfKey` | core/sysparam.c:1029-1080 | a key is iterated exactly when it has a value, under its id |
| `SysparamDisk.TagRoundTrip` | core/sysparam.c:96-99 | an entry's flags and id survive packing into 16 bits |
| `SysparamDisk.TagFormat` | core/sysparam.c:61-66 | which bit of an entry's tag says alive, invalid, value and binary, and which say the id |
| `SysparamDisk.HeadersInFlash` | core/sysparam.c:90-99 | region and entry headers byte by byte, the lowest byte first, and entry sizes |
| `SysparamDisk.ParseWhole` | core/sysparam.c:224-295 | a region that holds a log, with erased space after it, reads as exactly that log |
| `SysparamDisk.HoldsAppend` | core/sysparam.c:342-389 | writing an entry into the erased space after the log appends it, and the rest stays erased |
| `SysparamDisk.HoldsUpdate` | core/sysparam.c:392-404 | rewriting one entry's header in place changes that entry only |
| `SysparamDisk.SoundBecause` | core/sysparam.c:505-560 | which region a reset selects, and why it finds its log there |
| `SysparamDisk.SoundFrame` | core/sysparam.c:505-560 | writes outside the selected region do not change what a reset finds |
| `SysparamScan.ScanFinds` | core/sysparam.c:224-295 | a scan over the bytes of a region finds exactly the first matching entry of its log, with right running totals |
| `SysparamScan.EndIsExact` | core/sysparam.c:245-252 | the end-of-region test, made before a header is read, is exact because everything is word aligned |
| `SysparamScan.ScanPastEnd` | core/sysparam.c:224-295 | scanning on from the end counts nothing more |
| `SysparamFlash.WriteAndVerify` | core/sysparam.c:136-157 | succeeds if and only if what was programmed reads back; always when only bits are cleared |
| `SysparamFlash.DeleteEntry` | core/sysparam.c:392-404 | kills exactly one entry, by a single page program |
| `SysparamFlash.FormatRegion` | core/sysparam.c:160-168 | erases a region, its header's sector first, so no cut leaves a header over a half-erased log |
| `SysparamFlash.WriteRegionHeader` | core/sysparam.c:171-202 | writes a region header, over erased flash or over an active header that becomes stale |
| `SysparamFlash.ClearsInPlace` | core/sysparam.c:384-402 | clearing a flag of a written header can be programmed in place |
| `Sysparam.Store.WriteEntry` | core/sysparam.c:342-389 | after header-invalid, payload, header-valid the entry is there; a cut before the last write leaves it dead but with its length |
| `Sysparam.Store.FindEntry` | core/sysparam.c:224-295 | the scanning loop computes the scan function, and terminates |
| `Sysparam.Store.FindKey` | core/sysparam.c:305-333 | finds the live key of that name, or reports that there is none |
| `Sysparam.Store.GetData` | core/sysparam.c:637-680 | returns exactly what the log says for the key, under its whole name up to 65535 bytes |
| `Sysparam.Store.IterNext` | core/sysparam.c:1029-1080 | each step yields the next pair of the log, and the end means that all have been yielded |
| `Sysparam.Store.CopyPairs` | core/sysparam.c:432-466 | copies every live pair to the other region, and touches nothing else |
| `Sysparam.Store.Compact` | core/sysparam.c:418-487 | the new log is the compacted old one, and every image left by a cut between two writes or erases recovers to the old log or to the compacted one |
| `Sysparam.Store.SetData` | core/sysparam.c:788-975 | a nonempty value is reported as set if and only if it is there already or there is room (SysparamSet.HasRoom); the log and the force-compact flag afterwards are those computed by SysparamSet, nothing outside the area changes, and every image left by a power cut recovers to a log that SysparamSet.CutOf describes |
| `Sysparam.Store.Init` | core/sysparam.c:491-580 | finds the area whenever the first magic in the searched sectors is one of its headers, picks the complete region, recreates a missing stale header, and stands at the end of its log; a cut during the repair is harmless; it reports that nothing was found if and only if no sector searched has the magic, and refuses a stale header found alone; in both cases it changes nothing |
| `Sysparam.OneSectorFinds` | core/sysparam.c:499-514 | a search that starts anywhere in the first sector, with no top or with that sector as its top, finds the area if and only if its first region still has the magic, and otherwise finds nothing |
| `Sysparam.OneSectorMisses` | core/sysparam.c:160-168 | once a cut has interrupted the erasing of the first region, a search of one sector reports nothing although the second region is complete |
| `Sysparam.LongSearchFinds` | core/sysparam.c:499-514 | a search from the first region to beyond the second finds every area that a reset can recover; only if the first header is gone must no payload in between look like a header |
| `Sysparam.HeaderLocates` | core/sysparam.c:516-560 | either header of a sound area leads to both regions and to the one to use |
| `Sysparam.Store.Repair` | core/sysparam.c:532-547 | the missing stale region is formatted without changing what a reset finds |
| `Sysparam.Store.FindMagic` | core/sysparam.c:499-514 | finds the first sector that starts with the magic |
| `Sysparam.Store.CreateArea` | core/sysparam.c:582-627 | succeeds exactly for an even number of sectors that is forced or erased together with the 24 bytes behind it; leaves an empty log; a cut in the meantime leaves an area that recovers as empty, or one whose first header is gone and whose second region is erased or as it was; on failure changes nothing |
| `Sysparam.Store.ScanEmpty` | core/sysparam.c:597-611 | accepts exactly an erased area with 24 erased bytes behind it, because 32-byte reads advance by 8 |
| `Sysparam.Store.CreateThenInit` | core/app_main.c:219-224 | what was created is opened as an empty log by a search of one sector |
| `Sysparam.Store.FindTwin` | core/sysparam.c:516-547 | where a header says that the other one is, and when the pair is refused: a stale header without a twin is corrupt |
| `SysparamStart.Startup` | core/app_main.c:214-226 | the restart of the system: it takes up an area found by the search to the end of flash, creates one if and only if no magic was found and the flash is erased, and leaves a stale header found alone as it is |
| `SysparamStart.RestartAfterCreate` | core/sysparam.c:582-627 | what a restart meets after a cut in re-creating an area over itself: the empty area, nothing, the old log if the second region was the active one, or a refused stale header |
| `Sysparam.HeaderAlone` | core/sysparam.c:619-624 | as soon as the first header is written a reset recovers the empty log |
| `Sysparam.Store.Locate` | core/sysparam.c:833-844 | finds the key, its id and its current value |
| `Sysparam.Store.MakeRoom` | core/sysparam.c:875-941 | compacts exactly when SysparamSet.Judge says so, whose verdict SysparamSet.SetSucceeds and SysparamSpace.FullMeansFull decide, and keeps the force-compact flag exact |
| `Sysparam.DuringSwitch` | core/sysparam.c:468-482 | between the two header writes that end a compaction a reset recovers the old or the compacted log, and afterwards the compacted one |
| `Sysparam.BeforeSwitch` | core/sysparam.c:428-466 | until the new header is written a reset still finds the old log |
| `Sysparam.TornIsSound` | core/sysparam.c:342-389 | a half-written entry leaves the log as it was, with one dead entry |
| `Sysparam.KillOnDisk` | core/sysparam.c:392-404 | clearing the alive bit on flash kills that entry of the recovered log |
| `Sysparam.StaleWrite` | core/sysparam.c:418-487 | writes to the stale region do not change what a reset recovers |
| `SysparamSet.SetTakesEffect` | core/sysparam.c:788-975 | a set that reports success makes the key read as the new value if and only if WillTakeEffect, which speaks of the guards of the compacting branches and of the log before the call |
| `SysparamSet.CompactsIfGuarded` | core/sysparam.c:884-938 | which guards lead to a compaction |
| `SysparamSet.UnsetTakesEffect` | core/sysparam.c:957-963 | setting an empty value makes the key read as its hidden second value, hence absent exactly when there is none |
| `SysparamSet.SetKeepsOthers` | core/sysparam.c:788-975 | whatever happens, the log stays well formed and no other key changes |
| `SysparamSet.SetSucceeds` | core/sysparam.c:868-950 | a set of a nonempty value reports success if and only if the key has that value already or what it needs fits, behind the compacted log if the call compacts, with an id left for a new key |
| `SysparamSet.CompactsOnlyIfItMust` | core/sysparam.c:845-938 | a set compacts only if the entries do not fit, no id is left, or a scan has met damage; a set to the value that is there writes nothing |
| `SysparamSet.CompactsWhenItMust` | core/sysparam.c:915-938 | and it does compact if there is room and damage has been met, or no id is left and some key has no value |
| `SysparamSet.SetTwice` | core/sysparam.c:845-866 | a second set to the same value changes nothing |
| `SysparamSpace.FullMeansFull` | core/sysparam.c:884-912 | from a clean log a set succeeds if and only if what it needs fits behind the compacted log: when a region is reported full, compacting would not have helped |
| `SysparamSpace.CompactionFreesExactly` | core/sysparam.c:418-487 | in a clean log compaction frees exactly the dead entries, the value to be replaced and the keys without a value |
| `SysparamSpace.BalanceIsOrphans` | core/sysparam.c:262-283 | in a clean log the scan's balance of keys and values is the number of keys without a value |
| `SysparamSpace.FullTooEarly` | core/sysparam.c:884-912 | a concrete log with a hidden value on which a set reports a full region although compacting would have made the room |
| `SysparamSet.SetCases` | core/sysparam.c:868-955 | the four outcomes of a set, with the space and ids each of them needs; SetSucceeds says when which of them is a success |
| `SysparamSet.FullLosesOnlySpeculatively` | core/sysparam.c:890-912 | a set that reports a full region keeps the old value if and only if the scan counted no more keys than values, the test that leads to a speculative compaction |
| `SysparamSet.SetFits` | core/sysparam.c:868-912 | the log never outgrows its region |
| `SysparamSet.RenumberedMeant` | core/sysparam.c:915-955 | even when the key's id was not renumbered, the value written after a compaction changes what no other key reads; SysparamHidden.OrphanHidesBehind says when it then lies behind another key's value |
| `SysparamSet.CutIsAtomic` | core/sysparam.c:942-963 | a power cut in a set that does not compact leaves the key with its old or its new value, given no hidden second value |
| `SysparamSet.CutWhileCompacting` | core/sysparam.c:890-963 | a power cut in a set that compacts leaves the key with its old value, none, or the new one |
| `SysparamSet.CutKeepsOthers` | core/sysparam.c:788-975 | a power cut anywhere in a set changes no other key |
| `SysparamRuns.SetClean` | core/sysparam.c:788-975 | a set of a clean log leaves it clean, every value the only live one of its id and after its key, if and only if it does not compact under a key without a value |
| `SysparamRuns.SetRefines` | core/sysparam.c:788-975 | from a clean log a set does to the map what it reports, except that a set that loses an orphan does nothing to it |
| `SysparamRuns.SetKeyRefines` | core/sysparam.c:788-975 | what the key itself reads after each outcome from a clean log |
| `SysparamHidden.RunRefines` | core/sysparam.c:788-975 | over every run of sets from an empty region without power cuts every log fits, has at most one live value too many, and a key reads as the reported outcomes say if and only if the last call that named it and was not refused met its condition |
| `SysparamHidden.RunFaces` | core/sysparam.c:788-975 | in every such run each call does to the value that a key shows and the one that it hides exactly what FacesAfter says |
| `SysparamHidden.NobodyGoesAstray` | core/sysparam.c:788-975 | as long as no set compacts under a key without a value, every key reads as the outcomes say |
| `SysparamHidden.SetFaces` | core/sysparam.c:788-975 | the exact effect of a set on the shown and the hidden value of every key |
| `SysparamHidden.OrphanHidesBehind` | core/sysparam.c:445-482 | a set that compacts under a key without a value hides its value behind that of the key to which the compaction has given the old id, if there is one, and nothing else is left hidden |
| `SysparamHidden.SetKeepsOneOff` | core/sysparam.c:788-975 | every set without a power cut leaves at most one live value too many |
| `SysparamHidden.OneHidden` | core/sysparam.c:788-975 | at any time at most one key hides a second value |
| `SysparamHidden.ReplacedFaces` | core/sysparam.c:942-963 | a replacement brings a hidden value forward and hides the new one behind it |
| `SysparamHidden.UnsetShowsAnotherKeysValue` | core/sysparam.c:445-482 | a concrete run without power cuts in which unsetting one key makes it read as the value that another key was set to |
| `SysparamRuns.OrphanIsUnclean` | core/sysparam.c:445-446 | the value of such a set is always one live value too many |
| `SysparamRuns.CutRunKeeps` | core/sysparam.c:491-580 | over every run in which any calls are cut short by the power and followed by a restart, a key that no call names keeps its value |
| `SysparamOwners.CutRunReadsItsOwn` | core/sysparam.c:491-975 | over every run from an empty area in which any calls are cut short by the power and followed by a restart, and none loses an orphan, every key reads nothing or a value that some earlier call naming that very key carried |
| `SysparamOwners.CutRunOwned` | core/sysparam.c:788-975 | in such a run every live value after a live key with its id, read or hidden, was given to that key |
| `SysparamRuns.KillThenPut` | core/sysparam.c:942-963 | deleting the old value after appending the new one amounts to deleting it first |
| `SysparamRuns.OrphanIsLost` | core/sysparam.c:445-446 | a concrete log on which a set reports success and the value cannot be read |
| `SysparamRuns.HiddenValueSurfaces` | core/sysparam.c:957-963 | a concrete log with two live values on which a set reports success and the key reads as the second |
| `SysparamRuns.FullCanLoseTheValue` | core/sysparam.c:895-912 | a concrete log on which a set reports a full region after deleting the old value |
| `SysparamCrash.ReadAfterCut` | core/sysparam.c:491-680 | restart by any search that finds the area, and read, after a cut: other keys read as before, the key as its old or its new value, with the exceptions stated for compacting sets and hidden values |
| `SysparamCrash.SetThenGet` | core/sysparam.c:637-975 | set one name and read it and another: when the set is reported as done, what the name then reads, and that any other name of at most 65535 bytes reads as before |
| `KernelList.List.constructor` | FreeRTOS/Source/list.c:79-101 | an empty ring with the cursor on the end marker |
| `KernelList.List.InsertEnd` | FreeRTOS/Source/list.c:116-142 | links the item in immediately before the cursor; counts, container links and cursor stay exact |
| `KernelList.List.FindPlace` | FreeRTOS/Source/list.c:162-191 | the search loop terminates at the last item whose value is not greater, for the greatest value too |
| `KernelList.List.Insert` | FreeRTOS/Source/list.c:145-209 | a stable sorted insertion into the heap-linked ring |
| `KernelList.List.Remove` | FreeRTOS/Source/list.c:212-238 | unlinks one item, steps a cursor that stood on it back, and returns the number left |
| `KernelList.List.Next` | FreeRTOS/Source/tasks.c:164-189 | advances the cursor to the next item, skipping the end marker |
| `KernelList.List.Apart` | FreeRTOS/Source/list.c:79-101 | two lists share no node, so changing one leaves the other alone |
| `KernelList.InsertBeforeCursor` | FreeRTOS/Source/list.c:116-142 | in visiting order the new item comes last, but for the item that the cursor stands on |
| `KernelList.RemoveKeepsOrder` | FreeRTOS/Source/list.c:212-238 | removal keeps the cyclic order in which the others are visited |
| `KernelList.SortedInsert` | FreeRTOS/Source/list.c:145-209 | the values stay sorted and the new one comes after its equals |
| `KernelList.StepsRotate` | FreeRTOS/Source/tasks.c:164-189 | k steps rotate the visiting order by k |
| `KernelList.VisitsEachOnce` | FreeRTOS/Source/tasks.c:164-189 | over an unchanged list n selections visit the n items in order, each once |
| `KernelList.VisitsAll` | FreeRTOS/Source/tasks.c:164-189 | the visiting order is a permutation of the list |
| `KernelTime.Clock.Block` | FreeRTOS/Source/tasks.c:4692-4763 | files the task by its wrapped wake time so that its true deadline is now plus the ticks, or parks it for good |
| `KernelTime.FiledBehind` | FreeRTOS/Source/tasks.c:4725-4757 | a task is filed behind all that wake no later and before all that wake later |
| `KernelTime.Clock.Tick` | FreeRTOS/Source/tasks.c:2499-2652 | wakes exactly the tasks due at the new time, or counts the tick while suspended |
| `KernelTime.Clock.WakeDue` | FreeRTOS/Source/tasks.c:2545-2625 | wakes the tasks at the head of the list, in the order in which they are filed |
| `KernelTime.Clock.SwitchLists` | FreeRTOS/Source/tasks.c:239-251 | the two lists change places and the next unblock time is a lower bound again |
| `KernelTime.Clock.Replay` | FreeRTOS/Source/tasks.c:2076-2096 | n replayed ticks leave the same tasks blocked as n live ticks, and wake exactly those that were due, nobody before somebody who was due earlier |
| `KernelTime.Clock.ResumeAll` | FreeRTOS/Source/tasks.c:2017-2124 | processes the pended ticks when the scheduler is resumed for good, with the next unblock time brought up to date first if tasks were readied |
| `KernelTime.Clock.ResetNextUnblock` | FreeRTOS/Source/tasks.c:3635-3658 | the next unblock time is the head's wake time, or the greatest, and stays a lower bound |
| `KernelTime.Clock.Unblock` | FreeRTOS/Source/tasks.c:2894-2926 | a task taken out of its list early leaves the others' deadlines alone |
| `KernelTime.Clock.DelayUntil` | FreeRTOS/Source/tasks.c:1140-1199 | delays if and only if the true wake time is ahead, exactly under DelayUntilSees, and then until exactly that time; what it does otherwise is stated too |
| `KernelTime.Clock.SetTimeOut` | FreeRTOS/Source/tasks.c:3007-3013 | the snapshot stands for the true time: tick count and number of wraps, each wrapped, of the unbounded clock |
| `KernelTime.Clock.CheckForTimeOut` | FreeRTOS/Source/tasks.c:3016-3073 | with a snapshot of the start of a wait, reports expiry as of the true elapsed ticks if and only if TimeOutSees, and then keeps the absolute deadline; one wrap since the start suffices |
| `KernelTime.WrapRefines` | FreeRTOS/Source/tasks.c:239-251 | the current list is empty at every wrap |
| `KernelTime.TickRefines` | FreeRTOS/Source/tasks.c:2499-2540 | one tick on, the lists still file the same deadlines, across a wrap too |
| `KernelTime.BlockRefines` | FreeRTOS/Source/tasks.c:4725-4757 | the wrapped comparison picks the right list for the true deadline |
| `KernelTime.DelayUntilExact` | FreeRTOS/Source/tasks.c:1160-1182 | the comparisons of wrapped ticks decide whether the true wake time is ahead if and only if DelayUntilSees: the previous wake time is less than a full turn ago, or seems to be at least the increment ago |
| `KernelTime.DelayUntilMissed` | FreeRTOS/Source/tasks.c:1160-1182 | a previous wake time one full turn ago with which the comparisons go wrong |
| `KernelTime.TimeOutExact` | FreeRTOS/Source/tasks.c:3016-3073 | the timeout report is right if and only if TimeOutSees; one wrap of the tick count since the start suffices |
| `KernelTime.TimeOutMissed` | FreeRTOS/Source/tasks.c:3016-3073 | a wait of 100 ticks that has run out after nearly two turns of the tick count, and is not reported |
| `KernelTime.SleepsExactlyUntilDue` | FreeRTOS/Source/tasks.c:2499-2652 | in every run of ticks, other tasks' sleeps and wake-ups, a sleeping task that nothing readies stays delayed until its deadline and no longer |
| `KernelTime.Perform` | FreeRTOS/Source/tasks.c:1140-2124 | the kernel's calls, in any order, with the scheduler suspended and resumed at any time, carry out a run of events |
| `KernelTime.ActsAreARun` | FreeRTOS/Source/tasks.c:2017-2124 | such calls come to a run of events in which pended ticks count when the scheduler is resumed |
| `KernelTime.NoTickIsLost` | FreeRTOS/Source/tasks.c:2076-2096 | over every run of calls each tick interrupt has been processed once or is still pended |
| `KernelTime.WakesExactlyWhenDue` | FreeRTOS/Source/tasks.c:2499-2652 | over every run of calls a sleeping task that nothing readies stays delayed until its deadline in processed ticks and no longer |
| `KernelTime.SleepsItsTicks` | FreeRTOS/Source/tasks.c:4692-4763 | a task that goes to sleep for some ticks stays delayed for exactly that many, whatever calls the kernel gets in the meantime |
| `KernelTime.AllWoken` | FreeRTOS/Source/tasks.c:2545-2600 | once the loop stops, exactly those due have been woken |
| `KernelTime.LaterAdds` | FreeRTOS/Source/tasks.c:2076-2096 | ticks add up, so replaying pended ticks equals live ticks |
| `KernelTimers.InsertExact` | FreeRTOS/Source/timers.c:683-721 | the wrapped comparisons decide whether the true expiry has passed and, if not, which epoch's list it belongs in, for command ages below 2^32 |
| `KernelTimers.Daemon.Insert` | FreeRTOS/Source/timers.c:683-721 | reports 'process now' if and only if the expiry has passed, and otherwise files the timer for it |
| `KernelTimers.Daemon.ProcessExpired` | FreeRTOS/Source/timers.c:498-535 | calls back the head of the current list and, only if it reloads, re-arms it, by a command if the next expiry has passed too |
| `KernelTimers.Daemon.ExpireHead` | FreeRTOS/Source/timers.c:884-919 | each reinsertion raises the expiry, which is why the draining loop ends |
| `KernelTimers.Daemon.Drain` | FreeRTOS/Source/timers.c:871-919 | terminates with the current list empty |
| `KernelTimers.Daemon.SwitchLists` | FreeRTOS/Source/timers.c:871-927 | expires whatever is left, then the lists change places |
| `KernelTimers.Daemon.SampleTimeNow` | FreeRTOS/Source/timers.c:660-680 | switches the lists exactly when the tick count has wrapped since the last look, less than a full turn ago; after a longer wait, possible only with no timer active, nothing is lost |
| `KernelTimers.Daemon.ProcessTimer` | FreeRTOS/Source/timers.c:574-631 | processes the head of the list if it is due: the moves of the service that this amounts to |
| `KernelTimers.Daemon.ProcessCommand` | FreeRTOS/Source/timers.c:724-868 | carries out the next command: the moves of the service that this amounts to, a start command counting as issued less than a full turn ago |
| `KernelTimers.Daemon.StartTimer` | FreeRTOS/Source/timers.c:785-812 | starts the timer as of the command's time, calling back at once if that expiry has passed |
| `KernelTimers.Daemon.SetPeriod` | FreeRTOS/Source/timers.c:821-834 | re-arms the timer with its new period from now |
| `KernelTimers.Daemon.Disarm` | FreeRTOS/Source/timers.c:763-771 | takes the timer out of whichever list it is in |
| `KernelTimers.SampleExact` | FreeRTOS/Source/timers.c:660-680 | a tick count below the last one seen means exactly that an epoch has ended |
| `KernelTimers.ExpireKeepsSchedule` | FreeRTOS/Source/timers.c:498-535 | an expiry of a reloading timer is the next one on its schedule, and leaves other timers' schedules alone |
| `KernelTimers.ExpireEarlyKeepsSchedule` | FreeRTOS/Source/timers.c:884-919 | the same while the lists are being switched |
| `KernelTimers.HandleKeepsSchedule` | FreeRTOS/Source/timers.c:724-868 | carrying out a command keeps every schedule, if it is less than a full turn of the tick count late |
| `KernelTimers.HandledTooLate` | FreeRTOS/Source/timers.c:785-812 | and loses the timer's own schedule if it is later than that |
| `KernelTimers.StartMakesSchedule` | FreeRTOS/Source/timers.c:785-812 | a start command puts a reloading timer on schedule |
| `KernelTimers.RunKeepsSchedule` | FreeRTOS/Source/timers.c:538-631 | in every run in which nobody else commands it and its own commands are less than a full turn late, a reloading timer fires at start plus 1, 2, 3 periods and so on, each once and in order, across wraps |
| `KernelTimers.Serve` | FreeRTOS/Source/timers.c:538-868 | whatever the daemon is called upon to do, in order of time and with a look at the clock in each turn of the tick count, it carries out a run of the service |
| `KernelTimers.ServeOne` | FreeRTOS/Source/timers.c:538-868 | one call, also after a wait without limit with no timer active |
| `KernelOneShot.ExpiresForGood` | FreeRTOS/Source/timers.c:498-535 | an expiry of a timer that does not reload fires once, and neither arms it nor sends a command |
| `KernelOneShot.StartsForGood` | FreeRTOS/Source/timers.c:785-812 | a start of such a timer fires at once if the expiry has passed, and else arms it for the expiry |
| `KernelOneShot.RunFiresOnce` | FreeRTOS/Source/timers.c:498-868 | in every run in which it is undisturbed, a timer that does not reload fires at most once, at start plus its period |
| `KernelOneShot.FiredIfReached` | FreeRTOS/Source/timers.c:574-631 | and when the queue is empty and no timer overdue it has fired exactly if its expiry has been reached |
| `KernelOneShot.StartBegins` | FreeRTOS/Source/timers.c:785-812 | a start command begins such a run |
| `KernelOneShot.StopPutsToRest` | FreeRTOS/Source/timers.c:815-819 | stopping a timer disarms it, and calls nothing back |
| `KernelOneShot.RestsUntilCommanded` | FreeRTOS/Source/timers.c:538-868 | a timer at rest stays at rest and does not fire, in every run in which nobody commands it |
| `KernelOneShot.ChangeBeginsAnew` | FreeRTOS/Source/timers.c:821-834 | a change of period starts the timer anew from now with the new period, whether or not it reloads or was active |
| `KernelTimers.CaughtUp` | FreeRTOS/Source/timers.c:574-631 | when the queue is empty and no timer overdue, it has fired for exactly the expiries that have been reached |
| `KernelTimers.NoneOverdue` | FreeRTOS/Source/timers.c:574-600 | if the head of the current list is in the future, so is every active timer |
| `KernelTimers.ExpiryIsMultiple` | FreeRTOS/Source/timers.c:498-535 | the k-th expiry is start plus k periods |
| `KernelMutex.Kernel.Take` | FreeRTOS/Source/queue.c:1264-1397 | takes an available mutex and records the holder; otherwise the holder's priority becomes the greater of its own and the taker's, unless the taker may not wait |
| `KernelMutex.Kernel.Give` | FreeRTOS/Source/queue.c:1700-1722 | succeeds exactly if the mutex is held, and returns it, whoever gives; asks for a yield exactly if the holder falls back in priority |
| `KernelMutex.Kernel.Release` | FreeRTOS/Source/tasks.c:3772-3846 | the own priority returns when the last mutex is given back, and only then |
| `KernelMutex.Kernel.Inherit` | FreeRTOS/Source/tasks.c:3706-3765 | the holder's priority becomes the greater of its own and that of the waiting task, and nothing else changes |
| `KernelMutex.Kernel.Acquire` | FreeRTOS/Source/tasks.c:4178-4188 | the held count goes up with the holder recorded |
| `KernelMutex.Kernel.CreateMutex` | FreeRTOS/Source/queue.c:476-499 | a new mutex is available and held by nobody |
| `KernelMutex.TakenIsGood` | FreeRTOS/Source/queue.c:1272-1292 | taking keeps the books balanced |
| `KernelMutex.GivenIsGood` | FreeRTOS/Source/tasks.c:3772-3846 | giving keeps the books balanced, and a priority drops only when no mutex is held any more |
| `KernelMutex.InheritedIsGood` | FreeRTOS/Source/tasks.c:3706-3765 | inheriting keeps the books balanced and lowers no priority |
| `KernelMutex.RunIsGood` | FreeRTOS/Source/tasks.c:3706-3846 | in every run a mutex has no messages exactly if a task holds it, held counts are exact, and a priority above the task's own is noted until the task holds no mutex |
| `KernelMutex.InheritedFromAWaiter` | FreeRTOS/Source/tasks.c:3706-3846 | in every run a priority in use above the task's own is that which some task had when it began to wait for a mutex of this holder, since when the holder has always held some mutex |
| `KernelMutex.MostUrgent` | FreeRTOS/Source/tasks.c:3706-3846 | and no task that began to wait for it since then had a higher one |
| `KernelMutex.InheritedRaises` | FreeRTOS/Source/tasks.c:3745-3751 | inheriting changes the holder's priority only, to the greater of the two |
| `KernelMutex.NeverDropsWhileHolding` | FreeRTOS/Source/tasks.c:3772-3846 | in every stretch of a run in which a task holds some mutex its priority does not drop |
| `KernelMutex.Balanced` | FreeRTOS/Source/tasks.c:3772-3846 | what the books say about one task: base at most priority, equal when nothing is held, count equal to mutexes held |
| `KernelTasks.Scheduler.Create` | FreeRTOS/Source/tasks.c:850-1045 | a new task is filed in the ready list of its priority, capped at the highest, and its event item shows it |
| `KernelTasks.Scheduler.Sleep` | FreeRTOS/Source/tasks.c:4725-4757 | the running task moves to a delayed list, at the place of its wake time |
| `KernelTasks.Scheduler.Park` | FreeRTOS/Source/tasks.c:4721-4727 | the running task moves to the end of the suspended list |
| `KernelTasks.Scheduler.Wake` | FreeRTOS/Source/tasks.c:2545-2625 | a due or signalled task moves to the ready list of its priority |
| `KernelTasks.Scheduler.RemoveFromEventList` | FreeRTOS/Source/tasks.c:2894-2926 | readies the task at the end of its level, or notes it while the scheduler is suspended |
| `KernelTasks.Scheduler.Suspend` | FreeRTOS/Source/tasks.c:1566-1649 | moves the task to the suspended list from wherever it is |
| `KernelTasks.Scheduler.Resume` | FreeRTOS/Source/tasks.c:1656-1748 | readies only a task that is suspended and neither blocked nor already noted |
| `KernelTasks.Scheduler.SetPriority` | FreeRTOS/Source/tasks.c:1402-1559 | sets the task's own priority; an inherited one stays in use; a ready task is queued again at the end of the level it uses; the event item shows the new own one unless it holds bits; says when to yield; nothing happens if its own priority is the same already |
| `KernelTasks.UsesLessThanItsOwn` | FreeRTOS/Source/tasks.c:1477-1513 | a concrete task with own priority 1 that inherits 3, is set to 5, and goes on at 3 while its event item shows 5 |
| `KernelTasks.Scheduler.StoreBits` | FreeRTOS/Source/tasks.c:2837-2860 | while a task waits for an event group its event item holds bits |
| `KernelTasks.Scheduler.ResetEventValue` | FreeRTOS/Source/tasks.c:4162-4173 | the bits are read and the item shows the priority in use again |
| `KernelTasks.Scheduler.Inherit` | FreeRTOS/Source/tasks.c:3706-3765 | a holder with a lower priority takes that of the running task, moves to that level if it is ready, and its event item shows it unless it holds bits |
| `KernelTasks.Scheduler.Disinherit` | FreeRTOS/Source/tasks.c:3772-3846 | with the last mutex the running task goes back to the level of its own priority, and its event item shows it |
| `KernelTasks.Scheduler.Delete` | FreeRTOS/Source/tasks.c:1048-1133 | a deleted task leaves every list, or waits in the terminated list if it is running |
| `KernelTasks.Scheduler.ResumeAll` | FreeRTOS/Source/tasks.c:2017-2070 | readies exactly the tasks noted meanwhile, one after the other in the order noted |
| `KernelTasks.Scheduler.FindHighest` | FreeRTOS/Source/tasks.c:164-176 | the search for the highest level terminates at a level with a ready task, above which there is none |
| `KernelTasks.Scheduler.SwitchContext` | FreeRTOS/Source/tasks.c:164-189 | selects the next task, in visiting order, of the highest priority that has a ready one |
| `KernelTaskOrder.InsertedLast` | FreeRTOS/Source/list.c:116-142 | a task that joins a list comes last in visiting order, but for the one under the cursor, and the cursor stays on its task |
| `KernelTaskOrder.RemovedKeeps` | FreeRTOS/Source/list.c:212-238 | a task that leaves a list leaves the order of the others, and a cursor on it steps back |
| `KernelTaskOrder.MovedLast` | FreeRTOS/Source/tasks.c:2545-2625 | a task that becomes ready comes last in its level; its old list keeps its order and no other list changes |
| `KernelTaskOrder.RequeuedLast` | FreeRTOS/Source/tasks.c:1519-1537 | a task that is queued again on its own level comes last of those that are left |
| `KernelTaskOrder.DropKeepsOrder` | FreeRTOS/Source/tasks.c:1566-1590 | taking a task off the pending list keeps the order of the others |
| `KernelTaskOrder.NotedInOrder` | FreeRTOS/Source/tasks.c:2034-2050 | tasks of one priority that were noted while the scheduler was suspended get their turns in the order in which they were noted |
| `KernelTaskOrder.RevaluedKeepsBits` | FreeRTOS/Source/tasks.c:1506-1515 | a new priority leaves an event item alone that holds bits |
| `KernelTasks.InsertFiles` | FreeRTOS/Source/tasks.c:259-263 | inserting a task keeps it in exactly the list that its state item says |
| `KernelTasks.RemoveFiles` | FreeRTOS/Source/tasks.c:1566-1590 | removing a task leaves it in no list and the others where they are |
| `KernelTasks.InsertIsOk` | FreeRTOS/Source/list.c:116-142 | no task occurs twice in a list |
| `KernelEvents.EventGroup.SetBits` | FreeRTOS/Source/event_groups.c:530-621 | releases exactly the satisfied waiters, hands all of them the same bits from before the clearing, and clears exactly the union of what they asked for |
| `KernelEvents.EventGroup.WaitBits` | FreeRTOS/Source/event_groups.c:342-408 | satisfied at once, given up, or listed with the right control bits |
| `KernelEvents.EventGroup.Sync` | FreeRTOS/Source/event_groups.c:208-264 | one rendezvous call, stated as the relation Synced |
| `KernelEvents.EventGroup.ClearBits` | FreeRTOS/Source/event_groups.c:472-496 | clears the bits, returns the old ones, and satisfies nobody |
| `KernelEvents.EventGroup.Wake` | FreeRTOS/Source/event_groups.c:428-453 | what a call that blocked returns: the bits that released it, or the present ones after a timeout |
| `KernelEvents.EventGroup.TimeOut` | FreeRTOS/Source/tasks.c:2545-2600 | a waiter that times out leaves the list |
| `KernelEvents.Encode` | FreeRTOS/Source/event_groups.c:378-396 | the wanted bits and the control bits of an item value can be told apart again, and the value is marked as in use |
| `KernelEvents.TestMeans` | FreeRTOS/Source/event_groups.c:682-714 | 'all' asks for a superset, 'any' for a common bit |
| `KernelEvents.ClearingSatisfiesNobody` | FreeRTOS/Source/event_groups.c:472-496 | clearing bits satisfies no waiter |
| `KernelEvents.WhoIsMet` | FreeRTOS/Source/event_groups.c:556-611 | released are exactly the tasks whose condition the new bits satisfy, and every waiter is released or kept |
| `KernelEvents.WhoIsUnmet` | FreeRTOS/Source/event_groups.c:556-611 | kept are exactly the waiters whose condition is not satisfied |
| `KernelEvents.OrderIsKept` | FreeRTOS/Source/event_groups.c:556-611 | the kept waiters keep their order, and the released ones leave in theirs |
| `KernelEvents.Gathering` | FreeRTOS/Source/event_groups.c:208-264 | until the wanted bits are complete everybody who calls blocks and nobody leaves |
| `KernelEvents.Rendezvous` | FreeRTOS/Source/event_groups.c:208-264 | the call that completes the wanted bits releases all who gathered, in order of arrival, all of them read the same bits, and the wanted bits are cleared |
| `KernelQueue.Queue.CopyDataToQueue` | FreeRTOS/Source/queue.c:1697-1773 | back-send appends, front-send prepends; overwrite leaves the one item sent if and only if items have a size or the queue was empty |
| `KernelQueue.OverwritesTwice` | FreeRTOS/Source/queue.c:1759-1773 | two overwrites of a queue of one empty item count two messages |
| `KernelQueue.Queue.CopyDataFromQueue` | FreeRTOS/Source/queue.c:1776-1791 | reads the first item and moves the read pointer to it |
| `KernelQueue.Queue.Send` | FreeRTOS/Source/queue.c:742-860 | posts unless full, wakes the most urgent receiver, and no wake-up is lost |
| `KernelQueue.Queue.SendFromISR` | FreeRTOS/Source/queue.c:954-1065 | the same from an interrupt; while the queue is locked the post is counted in 8 bits instead of waking anybody |
| `KernelQueue.Queue.Receive` | FreeRTOS/Source/queue.c:1256-1360 | takes the first item and wakes the most urgent sender |
| `KernelQueue.Queue.Peek` | FreeRTOS/Source/queue.c:1264-1340 | returns the first item, changes neither contents nor pointers, and passes the wake-up on |
| `KernelQueue.Queue.ReceiveFromISR` | FreeRTOS/Source/queue.c:1434-1518 | takes the first item from an interrupt; while locked the removal is counted |
| `KernelQueue.Queue.Lock` | FreeRTOS/Source/queue.c:264-276 | starts counting posts and removals |
| `KernelQueue.Queue.PlaceReceiver` | FreeRTOS/Source/queue.c:1370-1405 | joins the waiting receivers behind all of higher or equal priority, while everybody else stays and keeps the order; the posts since the queue was seen empty are covered by the lock count |
| `KernelQueue.Queue.PlaceSender` | FreeRTOS/Source/queue.c:870-896 | joins the waiting senders in the same way; the removals since the queue was seen full are covered by the lock count |
| `KernelQueue.Queue.UnlockTx` | FreeRTOS/Source/queue.c:1794-1880 | wakes min(posts while locked, waiters) receivers, the most urgent first |
| `KernelQueue.Queue.UnlockRx` | FreeRTOS/Source/queue.c:1882-1911 | the same for senders and removals |
| `KernelQueue.Queue.Reset` | FreeRTOS/Source/queue.c:279-325 | empties the queue and wakes one sender; whether that strands another is decided exactly |
| `KernelQueue.ResetStrandsASender` | FreeRTOS/Source/queue.c:279-325 | a concrete reset that leaves a sender waiting beside an empty queue |
| `KernelQueue.SlotIsModular` | FreeRTOS/Source/queue.c:1725-1735 | writeTo == (readFrom + 1 + messages) mod length |
| `KernelQueue.BackStores` | FreeRTOS/Source/queue.c:1725-1735 | storing at the write pointer appends to the sequence in the ring |
| `KernelQueue.FrontStores` | FreeRTOS/Source/queue.c:1737-1748 | storing at the read pointer prepends |
| `KernelQueue.Reads` | FreeRTOS/Source/queue.c:1776-1791 | the item after the read pointer is the first |
| `KernelQueue.PlacedFits` | FreeRTOS/Source/tasks.c:2820-2834 | the event list stays in priority order and nobody waits twice |
| `KernelQueue.PlacedJoins` | FreeRTOS/Source/tasks.c:2820-2834 | a waiter joins behind its equals, nobody leaves the list and the others keep their order |
| `KernelQueue.NobodyLeaves` | FreeRTOS/Source/tasks.c:2820-2834 | the list then has everybody who waited and the new waiter, once each |
| `KernelQueue.WakeOne` | FreeRTOS/Source/tasks.c:2894-2926 | taking the head off the list keeps every item answered by a wake-up on its way |
| `KernelQueue.RunsAgain` | FreeRTOS/Source/queue.c:742-860 | a woken task that looks at the queue uses up one wake-up and one item |
| `KernelQueue.LeavesList` | FreeRTOS/Source/tasks.c:2545-2600 | a waiter that times out takes nobody's wake-up with it |
| `KernelQueue.CountIsExact` | FreeRTOS/Source/queue.c:1055 | the 8-bit lock count is the number of posts exactly up to 127 |
| `KernelQueue.Play` | FreeRTOS/Source/queue.c:723-1430 | a queue's sends and receives in any order are a run of the bounded sequence |
| `KernelQueue.FirstInFirstOut` | FreeRTOS/Source/queue.c:1697-1791 | over every such run of back-sends and receives, what came out and what is left is what was there and went in, in order |
| `KernelQueue.NothingIsLost` | FreeRTOS/Source/queue.c:1697-1791 | over every run of sends to either end and receives, no item is lost, invented or doubled |
| `KernelQueue.LastInFirstOut` | FreeRTOS/Source/queue.c:1737-1791 | what is sent to the front comes out before what was there, in the opposite order |
| `Slip.TwoPassesEscape` | utils/esptool.py:84-88 | the two replacements amount to escaping byte by byte |
| `Slip.WriteFrames` | utils/esptool.py:84-88 | a packet goes out as its escape between two end bytes |
| `Slip.ReadsWhatWasWritten` | utils/esptool.py:682-717 | the reader yields every list of packets that is written |
| `Slip.OnlyReadsWhatWasWritten` | utils/esptool.py:682-717 | and reads nothing else without an error |
| `Slip.SlipReader` | utils/esptool.py:682-717 | the reader's loops, over any chunks, compute the byte-by-byte reading of their concatenation, errors included |
| `Slip.ReaderInvertsWriter` | utils/esptool.py:682-717 | however the bytes are chunked, the reader yields ps and waits for a header if and only if the bytes are those written for ps |
| `Slip.ErrorsAreRight` | utils/esptool.py:682-717 | an error is reported exactly for what it says: a byte other than the end byte behind whole packets, or one after an escape that may not follow it |
| `Slip.TimeoutsAreRight` | utils/esptool.py:682-690 | a timeout is one of header exactly if the bytes are whole packets |
| `Slip.OnePacket` | utils/esptool.py:84-88 | one packet byte by byte, with both special bytes escaped |
| `Mqtt.Encode` | extras/paho_mqtt_c/MQTTPacket.c:28-45 | writes the digits of the length, and nothing else |
| `Mqtt.Decode` | extras/paho_mqtt_c/MQTTPacket.c:54-80 | reads a length field of at most four bytes, and counts a fifth that it refuses |
| `Mqtt.LengthRoundTrip` | extras/paho_mqtt_c/MQTTPacket.c:28-80 | with a budget of k bytes a length is read back as itself if and only if it is below 128^k |
| `Mqtt.EstimateBounds` | extras/paho_mqtt_c/MQTTPacket.c:83-97 | the size estimate bounds the true size if and only if the length is below 128^4, and is one too high at exactly four lengths |
| `Mqtt.FormsAgree` | extras/paho_mqtt_c/MQTTPacket.c:193-250 | the length counted for a string is the length written if and only if its two forms do not differ in length |
| `Mqtt.WriteStr` | extras/paho_mqtt_c/MQTTPacket.c:193-206 | writes the counted string, the length-delimited form first |
| `Mqtt.SerializePublish` | extras/paho_mqtt_c/MQTTSerializePublish.c:31-91 | refuses with -2 and leaves the buffer alone, or writes exactly header, length field and body and returns their size, whatever the flags, the qos and the two forms of the topic and however long |
| `Mqtt.WritesPacket` | extras/paho_mqtt_c/MQTTSerializePublish.c:31-91 | what is written is the standard's packet if and only if the two forms of the topic do not differ in length, and then it fits the buffer |
| `Mqtt.DeserializePublish` | extras/paho_mqtt_c/MQTTDeserializePublish.c:36-69 | 0 for another type; otherwise success is reported and truthful if and only if topic and id fit, and reported if and only if the topic fits or the length field is one byte; a missing id gives a negative payload length, a topic that does not fit leaves the length that it claims |
| `Mqtt.SaysFits` | extras/paho_mqtt_c/MQTTDeserializePublish.c:54-66 | bytes without room for topic or id are those of no packet |
| `Mqtt.BodyDetermines` | extras/paho_mqtt_c/MQTTDeserializePublish.c:54-66 | topic, id and payload are determined by the bytes, for topics of at most 65535 bytes and for no longer one |
| `Mqtt.PacketIsReadable` | extras/paho_mqtt_c/MQTTDeserializePublish.c:45-52 | a written packet, whatever follows it, meets what the reader demands |
| `Mqtt.PublishRoundTrip` | extras/paho_mqtt_c/MQTTDeserializePublish.c:36-69 | what is read back from a written packet is the packet, if and only if its topic has at most 65535 bytes |
| `Mqtt.TopicTravels` | extras/paho_mqtt_c/MQTTPacket.c:193-206 | the topic read back is the counted form if there is one, and else the C string, byte by byte |
| `Mqtt.OnePacket` | extras/paho_mqtt_c/MQTTSerializePublish.c:31-91 | one packet byte by byte, a header with all flags, and the standard's example of a length |
| `Mqtt.BadTopicLooksFine` | extras/paho_mqtt_c/MQTTDeserializePublish.c:52-56 | a concrete packet whose topic does not fit, reported as a success with the claimed topic length |
| `Mqtt.MissingIdLooksFine` | extras/paho_mqtt_c/MQTTDeserializePublish.c:58-65 | a concrete packet without room for its id, reported as a success with payload length -2 |
| `Image.ChecksumSeesChange` | utils/esptool.py:92-95 | one changed byte changes the checksum |
| `Image.ChecksumKeepsApart` | utils/esptool.py:92-95 | different states stay different under the same data |
| `Image.ComputeChecksum` | utils/esptool.py:92-95 | the loop computes the checksum function |
| `Image.Save` | utils/esptool.py:419-425 | the file is header, segments, zeros up to the last place of a block of 16, and the checksum there |
| `Image.Load` | utils/esptool.py:402-417 | the loader computes LoadedFrom of the file's bytes, errors included |
| `Image.LoadSegment` | utils/esptool.py:362-373 | reads one segment, and refuses a suspicious or truncated one |
| `Image.SaveThenLoad` | utils/esptool.py:402-425 | every legal image of at most 16 segments reloads to the same image and checksum |
| `Image.LoadThenSave` | utils/esptool.py:402-425 | whatever loads is legal, and its header and segments save to the bytes that they were loaded from |
| `Image.LayoutFillsBlocks` | utils/esptool.py:748-751 | the file's size is a multiple of 16 |
| `Image.LayoutParts` | utils/esptool.py:383-398 | where header and checksum are |
| `ImageFormat.HeaderFields` | utils/esptool.py:396-398 | where magic, count, flash mode, flash size and frequency, and entry point are in the file |
| `ImageFormat.SegmentFields` | utils/esptool.py:376-382 | where address, length and data of each segment are |
| `ImageFormat.OneImage` | utils/esptool.py:396-425 | the bytes of one small image |
| `ImageFormat.LoadsExactly` | utils/esptool.py:402-417 | bytes load as an image if and only if they start with its header and segments, it is legal, and the checksum is in its place |
| `ImageFormat.ErrorKinds` | utils/esptool.py:362-417 | which error each file that does not load gets |
| `Image.WordValue` | utils/esptool.py:364 | a 32-bit field reads as the number that was packed |
| `Rboot.CheckImage` | bootloader/rboot/rboot.c:15-122 | the checker's loops compute the function Check, for old and new type headers |
| `Rboot.CheckDecides` | bootloader/rboot/rboot.c:15-122 | an image flashed at a nonzero 16-aligned address is accepted if and only if the byte in the place of the checksum is the checksum |
| `Rboot.SavedIsAccepted` | bootloader/rboot/rboot.c:15-122 | what the writer saves, the checker accepts |
| `Rboot.OneChangeIsRefused` | bootloader/rboot/rboot.c:15-122 | one changed data byte, and the checker returns 0 |
| `Rboot.WalkAll` | bootloader/rboot/rboot.c:67-109 | the checker walks over all segments and adds up their data |
| `RbootNew.CheckDecidesNew` | bootloader/rboot/rboot.c:15-122 | a new type image at a 16-aligned address is accepted if and only if the byte in the place of the checksum is that of its irom section and its segments, and the address behind the irom section is returned |
| `RbootNew.AcceptedIsIntact` | bootloader/rboot/rboot.c:15-122 | an old type image is accepted only if all sections that its header announces are there and the stored checksum is theirs |
| `RbootNew.OnlyWithMagic` | bootloader/rboot/rboot.c:28-66 | nothing is accepted without one of the magics, or at the two addresses that mean none |
| `Rboot.LoadRom` | bootloader/rboot/rboot-stage2a.c:14-59 | the loader copies the sections, and returns the entry point |
| `Rboot.LoadData` | bootloader/rboot/rboot-stage2a.c:41-54 | copying block by block is copying the section |
| `Rboot.PlacedWhere` | bootloader/rboot/rboot-stage2a.c:14-59 | segments that do not overlap all end up at their addresses, and nothing else in memory changes |
| `Rboot.SavedIsLoaded` | bootloader/rboot/rboot-stage2a.c:14-59 | a saved and flashed image can be loaded, its entry point is returned, and memory holds exactly its segments |

## Left out

- SysparamHidden.RunRefines: runs without power cuts; with power cuts `SysparamRuns.CutRunKeeps` speaks of the keys that no call names, and `SysparamOwners.CutRunReadsItsOwn` of those that are named.
- SysparamOwners.CutRunReadsItsOwn: does not say which of the key's own values is read, nor anything once a set has lost an orphan.
- Sysparam.Store.Init: says nothing about images in which the search meets the magic in a sector that is not one of the area's headers.
- SysparamCrash.ReadAfterCut: for a set that compacts the key may also be absent after a cut, because the compactor drops the old value before the new one is written.
- Sysparam I/O errors: the salvage paths for a flash that fails to program, erase or read (core/sysparam.c:351-373) depend on unspecified device behaviour.
- SysparamSpace.FullMeansFull: speaks of clean logs; when the ids have run out as well, it is the scan's balance that decides whether the code tries to compact.
- Sysparam string, integer and boolean wrappers, malloc failures and the semaphore: thin, or not part of the logic.
- Reading beyond the end of the chip is taken to fail; an address below zero wraps around and lies beyond it.
- A torn page program: a power cut falls between page programs or sector erases, not inside one.
- KernelTimers.Daemon.ProcessCommand: assumes that while a timer is active the daemon looks at the clock at least once per turn of the tick count, which its bounded waits make sure of unless it is kept from running.
- KernelTimers.Daemon.ProcessExpired: assumes that the command queue accepts the daemon's own commands; the source asserts it.
- KernelTimers callbacks: the order of the firings is kept, what a callback does is not; deleting timers and pended function calls are left out.
- KernelTasks: lists are sequences with a cursor, as `KernelList` proves the linked lists to be; the pointer level is not carried through.
- KernelTasks.Scheduler.SetPriority: the new event value does not move the item within an event list; nor does it in the source. Preemption itself is left out, the request to yield is not.
- KernelTasks.Scheduler.Sleep: takes the place in the delayed list as given; `KernelTime` finds it.
- KernelMutex.Kernel.Give: a mutex given by a task that does not hold it counts as given by its holder; that the source then takes the holder's state item off a list that it may not be ready in is left out.
- KernelMutex: no `vTaskPrioritySet` (that is in `KernelTasks`), no deletion of holders, no recursive mutexes; a waiting task that times out leaves the inherited priority in place, as in this version of the kernel.
- KernelQueue.Queue.Send: one critical section at a time; the retry loop with its timeouts is the composition of `Send`, `Lock`, `IsFull`, `PlaceSender` and the unlock steps, in the order of the source.
- KernelQueue.Queue.CopyDataToQueue: pointers count items instead of bytes.
- KernelQueue: queue sets, deleting a woken task before it looks, and the yields that follow a wake-up are left out.
- KernelEvents: event bits are a set of bit positions; deleting a group and the interrupt variants, which only defer to the timer daemon, are left out.
- Slip.SlipReader: the generator's laziness is not modelled; the packets come out in one list, and the run ends with the timeout that an exhausted port causes.
- Mqtt.SerializePublish: a negative qos is left out; there is memory for what is written, which beyond 128^4 or with a topic in two forms the estimate does not make sure of.
- Mqtt.DeserializePublish: the buffer holds what its length field announces, as the source's documentation demands of callers; a packet id beyond the buffer is whatever follows it in memory.
- Image.Save: padding segments to words when they are added, and the version 2 images, which this writer and rboot checksum differently, are left out.
- Rboot.LoadRom: the sections lie within the chip, which the checker has made sure of; addresses are not wrapped.
- Rboot boot configuration, GPIO and RTC handling, hardware drivers, network clients, stack and heap set-up, tickless idle and co-routines are left out.
