/**
 Walking the log in flash, as a function of the bytes, and what such a walk finds
 in a region that holds a given log.
 */
module SysparamScan {
  import opened Flash
  import opened SysparamLog
  import opened SysparamDisk

  /** Where a scan stands, and what it has counted on the way. */
  datatype Context = Context(addr: nat, tag: Tag, len: nat, unused: int, compactable: nat, maxKeyId: nat)

  /** A header of all zeros, as a context starts out with. */
  const NO_TAG := Tag(false, false, false, false, 0)

  /** `c` stands on entry `pos` of the log (-1: before the first, |log|: at the end)
      and has counted everything up to there, plus `extra` compactable bytes. */
  ghost predicate StandsAt(c: Context, base: nat, log: seq<Entry>, pos: int, extra: nat)
  {
    && -1 <= pos <= |log|
    && c.addr == (if pos == -1 then base else AddrOf(base, log, pos))
    && (0 <= pos < |log| ==> c.tag == log[pos].tag && c.len == |log[pos].payload|)
    && (pos == |log| ==> c.len == 0)
    && Counted(c, log, if pos == |log| then pos else pos + 1, extra)
  }

  ghost predicate Counted(c: Context, log: seq<Entry>, n: nat, extra: nat)
    requires n <= |log|
  {
    c.unused == Balance(log, n) && c.compactable == DeadSize(log, n) + extra && c.maxKeyId == LastKeyId(log, n)
  }

  // ----- one step of a scan -----

  datatype Step = AtEntry(c: Context) | AtEnd(c: Context) | TooLong

  function Next(base: nat, c: Context): (a: nat)
  {
    if c.addr == base then base + REGION_HEADER_SIZE else c.addr + EntrySize(c.len)
  }

  /** Steps over the current entry and reads the next header, unless the end of the
      region is reached (`EndIsExact` says why there is then no room for a header). */
  function Move(mem: seq<Byte>, base: nat, limit: nat, c: Context): (m: Step)
    requires base + 12 <= limit <= |mem| && base <= c.addr <= limit
    ensures m.AtEntry? ==> c.addr < m.c.addr <= limit
  {
    var next := Next(base, c);
    if next > limit then TooLong
    else if next + 4 > limit then AtEnd(c.(addr := next))
    else
      var c' := c.(addr := next, tag := DecodeTag(Half(mem, next)), len := Half(mem, next + 2));
      if Half(mem, next) == 0xffff then AtEnd(c') else AtEntry(c')
  }

  /** Since everything is word-aligned, there is room for a header unless the address is
      the end of the region itself, which is what the source tests for. */
  lemma EndIsExact(base: nat, limit: nat, c: Context)
    requires base % 4 == 0 && limit % 4 == 0 && c.addr % 4 == 0
    ensures Next(base, c) <= limit ==> (Next(base, c) + 4 > limit <==> Next(base, c) == limit)
  {
    RoundUpAligned(c.len);
  }

  /** Counts the entry whose header was just read. */
  function Tally(c: Context): (c': Context)
    ensures c'.addr == c.addr && c'.tag == c.tag && c'.len == c.len
  {
    var e := Entry(c.tag, []);
    if !e.Live() then c.(compactable := c.compactable + EntrySize(c.len))
    else if e.IsKey() then c.(maxKeyId := e.Id(), unused := c.unused + 1)
    else c.(unused := c.unused - 1)
  }

  datatype Scanned = Scanned(found: bool, c: Context, truncated: bool)

  /** Where a scan over the bytes ends, whatever they are. */
  function Scan(mem: seq<Byte>, base: nat, limit: nat, c: Context, id: nat, wantValue: bool): (r: Scanned)
    requires base + 12 <= limit <= |mem| && base <= c.addr <= limit
    decreases limit - c.addr
  {
    match Move(mem, base, limit, c)
    case TooLong => Scanned(false, c, true)
    case AtEnd(end) => Scanned(false, end, false)
    case AtEntry(entry) =>
      var c' := Tally(entry);
      if Matches(Entry(c'.tag, []), id, wantValue) then Scanned(true, c', false)
      else Scan(mem, base, limit, c', id, wantValue)
  }

  predicate Framed(mem: seq<Byte>, base: nat, size: nat, c: Context)
  {
    12 <= size && base + size <= |mem| && base <= c.addr <= base + size
  }

  lemma StandingIsFramed(mem: seq<Byte>, base: nat, size: nat, log: seq<Entry>, c: Context, q: int, extra: nat)
    requires 12 <= size
    requires Holds(mem, base, size, log) && StandsAt(c, base, log, q, extra)
    ensures Framed(mem, base, size, c)
  {
    if q >= 0 { OffsetMonotone(log, q, |log|); }
  }

  lemma MoveOn(mem: seq<Byte>, base: nat, size: nat, log: seq<Entry>, c: Context, q: int, extra: nat)
    requires Framed(mem, base, size, c)
    requires Holds(mem, base, size, log) && StandsAt(c, base, log, q, extra) && q + 1 < |log|
    ensures var m := Move(mem, base, base + size, c);
            m.AtEntry? && StandsAt(Tally(m.c), base, log, q + 1, extra) && m.c.tag == log[q + 1].tag
  {
    HeaderAhead(mem, base, size, log, q + 1);
    NextIs(base, log, c, q, extra);
    var m := Move(mem, base, base + size, c);
    assert m == AtEntry(c.(addr := AddrOf(base, log, q + 1), tag := log[q + 1].tag, len := |log[q + 1].payload|));
    TallyCounts(c, m.c, log, q + 1, extra);
  }

  lemma HeaderAhead(mem: seq<Byte>, base: nat, size: nat, log: seq<Entry>, n: nat)
    requires Holds(mem, base, size, log) && n < |log|
    ensures var a := AddrOf(base, log, n);
            && a + 4 <= base + size && Half(mem, a) != 0xffff
            && DecodeTag(Half(mem, a)) == log[n].tag && Half(mem, a + 2) == |log[n].payload|
  {
    OffsetMonotone(log, n, |log|);
    assert TileAt(mem, base, log, n);
    TagRoundTrip(log[n].tag);
  }

  lemma NextIs(base: nat, log: seq<Entry>, c: Context, q: int, extra: nat)
    requires StandsAt(c, base, log, q, extra) && q < |log|
    ensures Next(base, c) == AddrOf(base, log, q + 1)
  {
  }

  lemma TallyCounts(c: Context, entry: Context, log: seq<Entry>, n: nat, extra: nat)
    requires n < |log| && Counted(c, log, n, extra) && entry.tag == log[n].tag && entry.len == |log[n].payload|
    requires entry.unused == c.unused && entry.compactable == c.compactable && entry.maxKeyId == c.maxKeyId
    ensures Counted(Tally(entry), log, n + 1, extra)
  {
  }

  lemma MoveToEnd(mem: seq<Byte>, base: nat, size: nat, log: seq<Entry>, c: Context, q: int, extra: nat)
    requires Framed(mem, base, size, c)
    requires Holds(mem, base, size, log) && StandsAt(c, base, log, q, extra) && q + 1 == |log|
    ensures var m := Move(mem, base, base + size, c);
            m.AtEnd? && m.c.addr == AddrOf(base, log, |log|) && Counted(m.c, log, |log|, extra)
  {
    var next := AddrOf(base, log, |log|);
    assert next == Next(base, c);
    if next + 4 <= base + size { assert mem[next] == ERASED && mem[next + 1] == ERASED; }
  }

  /** What a scan reports if the first match is entry `p` of the log (or none). */
  ghost predicate Reports(r: Scanned, base: nat, log: seq<Entry>, p: nat, extra: nat)
  {
    && p <= |log| && !r.truncated && r.found == (p < |log|)
    && (r.found ==> StandsAt(r.c, base, log, p, extra))
    && (!r.found ==> r.c.addr == AddrOf(base, log, |log|) && Counted(r.c, log, |log|, extra))
  }

  lemma ScanOne(mem: seq<Byte>, base: nat, size: nat, log: seq<Entry>, c: Context, q: int,
                extra: nat, id: nat, wantValue: bool) returns (c': Context)
    requires Framed(mem, base, size, c)
    requires Holds(mem, base, size, log) && StandsAt(c, base, log, q, extra) && q + 1 < |log|
    ensures StandsAt(c', base, log, q + 1, extra) && Framed(mem, base, size, c')
    ensures Matches(log[q + 1], id, wantValue) ==>
              Reports(Scan(mem, base, base + size, c, id, wantValue), base, log, FindFrom(log, q + 1, id, wantValue), extra)
    ensures !Matches(log[q + 1], id, wantValue) ==>
              && Scan(mem, base, base + size, c, id, wantValue) == Scan(mem, base, base + size, c', id, wantValue)
              && FindFrom(log, q + 1, id, wantValue) == FindFrom(log, q + 2, id, wantValue)
  {
    MoveOn(mem, base, size, log, c, q, extra);
    FindNext(log, q + 1, id, wantValue);
    c' := Tally(Move(mem, base, base + size, c).c);
    assert Matches(Entry(c'.tag, []), id, wantValue) == Matches(log[q + 1], id, wantValue);
  }

  lemma ScanEnds(mem: seq<Byte>, base: nat, size: nat, log: seq<Entry>, c: Context, q: int,
                 extra: nat, id: nat, wantValue: bool)
    requires Framed(mem, base, size, c)
    requires Holds(mem, base, size, log) && StandsAt(c, base, log, q, extra) && q + 1 == |log|
    ensures Reports(Scan(mem, base, base + size, c, id, wantValue), base, log, |log|, extra)
  {
    MoveToEnd(mem, base, size, log, c, q, extra);
  }

  /** A scan over a region that holds `log` finds what the log says, with the
      running totals of everything it passed. */
  lemma ScanFinds(mem: seq<Byte>, base: nat, size: nat, log: seq<Entry>, c: Context, q: int,
                  extra: nat, id: nat, wantValue: bool)
    requires Framed(mem, base, size, c)
    requires Holds(mem, base, size, log) && StandsAt(c, base, log, q, extra) && q < |log|
    ensures Reports(Scan(mem, base, base + size, c, id, wantValue), base, log,
                    FindFrom(log, q + 1, id, wantValue), extra)
  {
    var r, p := ScanResult(mem, base, size, log, c, q, extra, id, wantValue);
  }

  lemma {:induction false} ScanResult(mem: seq<Byte>, base: nat, size: nat, log: seq<Entry>, c: Context, q: int,
                                      extra: nat, id: nat, wantValue: bool) returns (r: Scanned, p: nat)
    requires Framed(mem, base, size, c)
    requires Holds(mem, base, size, log) && StandsAt(c, base, log, q, extra) && q < |log|
    ensures r == Scan(mem, base, base + size, c, id, wantValue) && p == FindFrom(log, q + 1, id, wantValue)
    ensures Reports(r, base, log, p, extra)
    decreases |log| - q
  {
    if q + 1 == |log| {
      ScanEnds(mem, base, size, log, c, q, extra, id, wantValue);
      r, p := Scan(mem, base, base + size, c, id, wantValue), |log|;
    } else {
      var c' := ScanOne(mem, base, size, log, c, q, extra, id, wantValue);
      if Matches(log[q + 1], id, wantValue) {
        r, p := Scan(mem, base, base + size, c, id, wantValue), q + 1;
      } else {
        r, p := ScanResult(mem, base, size, log, c', q + 1, extra, id, wantValue);
      }
    }
  }

  lemma FindNext(log: seq<Entry>, i: nat, id: nat, wantValue: bool)
    requires i < |log|
    ensures FindFrom(log, i, id, wantValue) == if Matches(log[i], id, wantValue) then i else FindFrom(log, i + 1, id, wantValue)
  {
  }

  /** Scanning on from the end counts nothing more; if the log fills its region
      exactly, the code takes the step for a truncated entry. */
  lemma ScanPastEnd(mem: seq<Byte>, base: nat, size: nat, log: seq<Entry>, c: Context, extra: nat,
                    id: nat, wantValue: bool)
    requires Framed(mem, base, size, c)
    requires Holds(mem, base, size, log) && StandsAt(c, base, log, |log|, extra)
    ensures var r := Scan(mem, base, base + size, c, id, wantValue);
            !r.found && r.truncated == (c.addr + 4 > base + size) && Counted(r.c, log, |log|, extra)
  {
    if c.addr + 8 <= base + size {
      assert mem[c.addr + 4] == ERASED && mem[c.addr + 5] == ERASED;
    }
  }
}
