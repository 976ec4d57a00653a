/**
 The boot loader's side of a firmware image: checking it in flash, and loading it into
 memory. Images come from the writer in module Image.
 */
module Rboot {

  import opened Bytes
  import opened Image

  const ROM_MAGIC: Byte := 0xe9
  const ROM_MAGIC_NEW1: Byte := 0xea
  const ROM_MAGIC_NEW2: Byte := 0x04
  const CHKSUM_INIT: Byte := 0xef
  const BUFFER_SIZE: nat := 0x100
  const FIRST: nat := 0  // number of the first section

  /** The largest chip that 24-bit addresses reach; positions in it never wrap. */
  const MAX_FLASH: nat := 0x100_0000

  // ----- checking -----

  datatype Walk = Bad | Walked(pos: nat, chksum: Byte)

  /** The sections from number `current` on. A count of 255 stands for the irom section of a
      new type image, behind which the real count is found. */
  function Sections(flash: seq<Byte>, pos: nat, current: nat, count: nat, chksum: Byte): (w: Walk)
    requires current <= 255 && count <= 255
    decreases 255 - current
  {
    if current >= count then Walked(pos, chksum)
    else if |flash| < pos + 8 then Bad
    else
      var end := pos + 8 + Word(flash, pos + 4);
      if |flash| < end then Bad
      else
        var sum := Checksum(flash, pos + 8, end, chksum);
        if count != 255 then Sections(flash, end, current + 1, count, sum)
        else if |flash| < end + 8 then Bad
        else Sections(flash, end + 8, current + 1, (flash[end + 1] as nat + 1) % 256, sum)
  }

  /** The stored checksum, at the end of the block of 16, decides. */
  function Verdict(flash: seq<Byte>, romaddr: nat, w: Walk): (r: nat)
  {
    match w
    case Bad => 0
    case Walked(pos, chksum) =>
      var at := pos + Padding(pos);
      if |flash| <= at || flash[at] != chksum then 0 else romaddr
  }

  /** What the header says: where the rom proper is, and how many sections to check. */
  datatype Entry = NoRom | Rom(romaddr: nat, count: nat)

  function EntryOf(flash: seq<Byte>, readpos: nat): (e: Entry)
    ensures e.Rom? ==> e.count <= 255 && readpos + 8 <= |flash|
  {
    if readpos == 0 || readpos == 0xffff_ffff || |flash| < readpos + 16 then NoRom
    else if flash[readpos] == ROM_MAGIC then Rom(readpos, flash[readpos + 1] as nat)
    else if flash[readpos] == ROM_MAGIC_NEW1 && flash[readpos + 1] == ROM_MAGIC_NEW2 then
      Rom((readpos + Word(flash, readpos + 12) + 16) % WORD_LIMIT, 255)
    else NoRom
  }

  function Check(flash: seq<Byte>, readpos: nat): (r: nat)
  {
    match EntryOf(flash, readpos)
    case NoRom => 0
    case Rom(romaddr, count) => Verdict(flash, romaddr, Sections(flash, readpos + 8, FIRST, count, CHKSUM_INIT))
  }

  /** Reads from the chip; reading beyond it is an error. */
  method SPIRead(flash: seq<Byte>, addr: nat, len: nat) returns (ok: bool, data: seq<Byte>)
    ensures ok <==> addr + len <= |flash|
    ensures ok ==> data == flash[addr..addr + len]
  {
    ok, data := addr + len <= |flash|, [];
    if ok { data := flash[addr..addr + len]; }
  }

  /** One section's data, block by block. */
  method CheckData(flash: seq<Byte>, start: nat, length: nat, init: Byte) returns (ok: bool, readpos: nat, chksum: Byte)
    requires start <= |flash|
    ensures ok <==> start + length <= |flash|
    ensures ok ==> readpos == start + length && chksum == Checksum(flash, start, start + length, init)
  {
    readpos, chksum := start, init;
    var remaining: nat := length;
    while remaining > 0
      invariant readpos + remaining == start + length && start <= readpos <= |flash|
      invariant chksum == Checksum(flash, start, readpos, init)
    {
      var readlen := if remaining < BUFFER_SIZE then remaining else BUFFER_SIZE;
      var buffer;
      ok, buffer := SPIRead(flash, readpos, readlen);
      if !ok {
        return;
      }
      ChecksumContinues(flash, start, readpos, readpos + readlen, init);
      ChecksumMoves(flash, readpos, buffer, 0, readlen, chksum);
      readpos := readpos + readlen;
      remaining := remaining - readlen;
      chksum := ComputeChecksum(buffer, chksum);
    }
    ok := true;
  }

  method CheckImage(flash: seq<Byte>, start: nat) returns (r: nat)
    requires |flash| <= MAX_FLASH && start < WORD_LIMIT
    ensures r == Check(flash, start)
  {
    var rom := CheckHeader(flash, start);
    if rom.NoRom? {
      return 0;
    }
    var good, readpos, chksum := CheckSections(flash, start + 8, rom.count);
    if !good {
      return 0;
    }
    r := CompareSums(flash, rom.romaddr, readpos, chksum);
  }

  method CheckHeader(flash: seq<Byte>, readpos: nat) returns (e: Entry)
    ensures e == EntryOf(flash, readpos)
  {
    if readpos == 0 || readpos == 0xffff_ffff {
      return NoRom;
    }
    var ok, header := SPIRead(flash, readpos, 16);
    if !ok {
      return NoRom;
    }
    if header[0] == ROM_MAGIC {
      e := Rom(readpos, header[1] as nat);
    } else if header[0] == ROM_MAGIC_NEW1 && header[1] == ROM_MAGIC_NEW2 {
      e := Rom((readpos + Word(header, 12) + 16) % WORD_LIMIT, 0xff);
    } else {
      e := NoRom;
    }
  }

  /** Rounds up to the end of the block and compares the checksums. */
  method CompareSums(flash: seq<Byte>, romaddr: nat, end: nat, chksum: Byte) returns (r: nat)
    ensures r == Verdict(flash, romaddr, Walked(end, chksum))
  {
    var readpos := end + (15 - end % 16);
    var ok, block := SPIRead(flash, readpos, 1);
    if !ok {
      return 0;
    }
    if block[0] != chksum {
      return 0;
    }
    r := romaddr;
  }

  method CheckSections(flash: seq<Byte>, start: nat, count: nat) returns (ok: bool, readpos: nat, chksum: Byte)
    requires count <= 255 && start <= |flash|
    ensures Sections(flash, start, FIRST, count, CHKSUM_INIT) == if ok then Walked(readpos, chksum) else Bad
  {
    readpos, chksum := start, CHKSUM_INIT;
    var sectcount: nat, sectcurrent: nat := count, 0;
    while sectcurrent < sectcount
      invariant sectcurrent <= 255 && sectcount <= 255 && readpos <= |flash|
      invariant Sections(flash, start, FIRST, count, CHKSUM_INIT) == Sections(flash, readpos, sectcurrent, sectcount, chksum)
      decreases 255 - sectcurrent
    {
      var block;
      ok, block := SPIRead(flash, readpos, 8);
      if !ok {
        return;
      }
      var remaining := Word(block, 4);
      ok, readpos, chksum := CheckData(flash, readpos + 8, remaining, chksum);
      if !ok {
        return;
      }
      if sectcount == 0xff {
        ok, block := SPIRead(flash, readpos, 8);
        if !ok {
          return;
        }
        sectcount := (block[1] as nat + 1) % 256;
        readpos := readpos + 8;
      }
      sectcurrent := sectcurrent + 1;
    }
    ok := true;
  }

  // ----- the checker and the writer -----

  /** Flash holds these bytes at `base`. */
  ghost predicate Flashed(flash: seq<Byte>, base: nat, bytes: seq<Byte>)
  {
    base + |bytes| <= |flash| && flash[base..base + |bytes|] == bytes
  }

  /** At `pos` there is a section with the address, length and data of `s`. */
  ghost predicate SectionIs(flash: seq<Byte>, pos: nat, s: Segment)
  {
    && pos + 8 + |s.data| <= |flash|
    && Word(flash, pos) == s.address && Word(flash, pos + 4) == |s.data|
    && forall k :: pos + 8 <= k < pos + 8 + |s.data| ==> flash[k] == s.data[k - (pos + 8)]
  }

  /** The sections of an image at `base`. */
  ghost predicate Holds(flash: seq<Byte>, base: nat, ss: seq<Segment>, i: nat)
    requires i < |ss|
  {
    SectionIs(flash, base + Offset(ss, i), ss[i])
  }

  lemma FlashHolds(flash: seq<Byte>, base: nat, img: Image, sum: Byte)
    requires Legal(img) && Flashed(flash, base, Layout(img, sum))
    ensures forall i {:trigger Holds(flash, base, img.segments, i)} :: 0 <= i < |img.segments| ==> Holds(flash, base, img.segments, i)
  {
    var ss := img.segments;
    AllLie(img, sum, flash, base);
    forall i | 0 <= i < |ss| ensures Holds(flash, base, ss, i) {
      assert Lies(flash, base, ss, i);
      SegmentReads(flash, base + Offset(ss, i), ss[i]);
      SliceIs(flash, base + Offset(ss, i) + 8, ss[i].data);
    }
  }

  lemma SliceIs(s: seq<Byte>, at: nat, t: seq<Byte>)
    requires at + |t| <= |s| && s[at..at + |t|] == t
    ensures forall k :: at <= k < at + |t| ==> s[k] == t[k - at]
  {
  }

  lemma WalkOne(flash: seq<Byte>, pos: nat, s: Segment, current: nat, count: nat, chksum: Byte)
    requires current < count < 255 && SectionIs(flash, pos, s)
    ensures Sections(flash, pos, current, count, chksum)
         == Sections(flash, pos + 8 + |s.data|, current + 1, count, Checksum(s.data, 0, |s.data|, chksum))
  {
    ChecksumMoves(flash, pos + 8, s.data, 0, |s.data|, chksum);
  }

  /** The checker walks over all segments and adds up their data. */
  lemma {:induction false} WalkAll(flash: seq<Byte>, base: nat, ss: seq<Segment>, n: nat)
    requires n <= |ss| <= 16
    requires forall i {:trigger Holds(flash, base, ss, i)} :: 0 <= i < |ss| ==> Holds(flash, base, ss, i)
    ensures Sections(flash, base + Offset(ss, n), n, |ss|, Sum(ss, n)) == Walked(base + Offset(ss, |ss|), Sum(ss, |ss|))
    decreases |ss| - n
  {
    if n < |ss| {
      assert Holds(flash, base, ss, n);
      WalkOne(flash, base + Offset(ss, n), ss[n], n, |ss|, Sum(ss, n));
      WalkAll(flash, base, ss, n + 1);
    }
  }

  /** An image that was flashed at a 16-aligned address is accepted exactly if the byte in
      the place of the checksum is the checksum. */
  lemma CheckDecides(flash: seq<Byte>, base: nat, img: Image, sum: Byte)
    requires Legal(img) && 0 < base < WORD_LIMIT && base % 16 == 0 && Flashed(flash, base, Layout(img, sum))
    ensures Check(flash, base) == if sum == Sum(img.segments, |img.segments|) then base else 0
  {
    var ss := img.segments;
    var n := |ss|;
    FlashHolds(flash, base, img, sum);
    FlashEnds(flash, base, img, sum);
    WalkAll(flash, base, ss, 0);
    CheckOld(flash, base, Offset(ss, n), n, Sum(ss, n));
  }

  lemma CheckOld(flash: seq<Byte>, base: nat, n: nat, count: nat, chksum: Byte)
    requires 0 < base < WORD_LIMIT && base % 16 == 0 && base + 16 <= |flash|
    requires flash[base] == ROM_MAGIC && flash[base + 1] as nat == count
    requires Sections(flash, base + 8, FIRST, count, CHKSUM_INIT) == Walked(base + n, chksum)
    requires base + (n + Padding(n)) < |flash|
    ensures Check(flash, base) == if flash[base + (n + Padding(n))] == chksum then base else 0
  {
    PaddingShifts(base, n);
    assert EntryOf(flash, base) == Rom(base, count);
  }

  /** The header's magic and count, and the place of the checksum. */
  lemma FlashEnds(flash: seq<Byte>, base: nat, img: Image, sum: Byte)
    requires |img.segments| < 256 && Flashed(flash, base, Layout(img, sum))
    ensures var n := Offset(img.segments, |img.segments|);
            && base + 16 <= |flash| && flash[base] == ROM_MAGIC && flash[base + 1] as nat == |img.segments|
            && flash[base + 4..base + 8] == Le(img.entry)
            && base + (n + Padding(n)) < |flash| && flash[base + (n + Padding(n))] == sum
  {
    var bytes, n := Layout(img, sum), Offset(img.segments, |img.segments|);
    LayoutFillsBlocks(img, sum);
    LayoutParts(img, sum);
    assert flash[base] == bytes[0] == bytes[..8][0] && flash[base + 1] == bytes[1] == bytes[..8][1];
    assert flash[base + (n + Padding(n))] == bytes[n + Padding(n)];
    Within(flash, base, |bytes|, 4, 8);
    assert bytes[4..8] == bytes[..8][4..8] == Le(img.entry);
  }

  lemma PaddingShifts(base: nat, n: nat)
    requires base % 16 == 0
    ensures Padding(base + n) == Padding(n)
  {
  }

  /** What the writer saves, the checker accepts. */
  lemma SavedIsAccepted(flash: seq<Byte>, base: nat, img: Image)
    requires Legal(img) && 0 < base < WORD_LIMIT && base % 16 == 0
    requires Flashed(flash, base, Layout(img, Sum(img.segments, |img.segments|)))
    ensures Check(flash, base) == base
  {
    CheckDecides(flash, base, img, Sum(img.segments, |img.segments|));
  }

  /** The same segments with byte j of segment i changed. */
  function Changed(ss: seq<Segment>, i: nat, j: nat, b: Byte): (r: seq<Segment>)
    requires i < |ss| && j < |ss[i].data|
  {
    ss[i := Segment(ss[i].address, ss[i].data[j := b])]
  }

  lemma {:induction false} SumSeesChange(ss: seq<Segment>, i: nat, j: nat, b: Byte, n: nat)
    requires i < |ss| && j < |ss[i].data| && ss[i].data[j] != b && n <= |ss|
    ensures n <= i ==> Sum(Changed(ss, i, j, b), n) == Sum(ss, n)
    ensures n > i ==> Sum(Changed(ss, i, j, b), n) != Sum(ss, n)
  {
    if n > 0 {
      SumSeesChange(ss, i, j, b, n - 1);
      if n - 1 == i {
        ChecksumSeesChange(ss[i].data, |ss[i].data|, j, b, Sum(ss, i));
      } else if n - 1 > i {
        ChecksumKeepsApart(ss[n - 1].data, |ss[n - 1].data|, Sum(Changed(ss, i, j, b), n - 1), Sum(ss, n - 1));
      }
    }
  }

  /** Changing a data byte in a segment changes that one byte of the image. */
  lemma {:induction false} ChangeBytes(ss: seq<Segment>, i: nat, j: nat, b: Byte, n: nat)
    requires i < |ss| && j < |ss[i].data| && n <= |ss|
    ensures var o := Offset(ss, i) + j; var all, all' := SegmentsBytes(ss, n), SegmentsBytes(Changed(ss, i, j, b), n);
            && Offset(Changed(ss, i, j, b), n) == Offset(ss, n)
            && (n <= i ==> all' == all)
            && (n > i ==> o < |all| && all' == all[o := b])
  {
    OffsetSkips(ss, i);
    if n > 0 {
      ChangeBytes(ss, i, j, b, n - 1);
      var ss' := Changed(ss, i, j, b);
      var front, s := SegmentsBytes(ss, n - 1), SegmentBytes(ss[n - 1]);
      if n - 1 == i {
        ChangedSegment(ss[i], j, b);
        UpdateBack(front, s, 8 + j, b);
      } else if n - 1 > i {
        UpdateFront(front, s, Offset(ss, i) + j, b);
      }
    }
  }

  lemma ChangedSegment(s: Segment, j: nat, b: Byte)
    requires j < |s.data|
    ensures SegmentBytes(Segment(s.address, s.data[j := b])) == SegmentBytes(s)[8 + j := b]
  {
  }

  lemma UpdateFront(x: seq<Byte>, y: seq<Byte>, o: nat, b: Byte)
    requires o < |x|
    ensures x[o := b] + y == (x + y)[o := b]
  {
  }

  lemma UpdateBack(x: seq<Byte>, y: seq<Byte>, o: nat, b: Byte)
    requires o < |y|
    ensures x + y[o := b] == (x + y)[|x| + o := b]
  {
  }

  lemma ChangeLayout(img: Image, sum: Byte, i: nat, j: nat, b: Byte)
    requires |img.segments| < 256 && i < |img.segments| && j < |img.segments[i].data|
    ensures var o := Offset(img.segments, i) + 8 + j;
            o < |Layout(img, sum)| && Layout(img.(segments := Changed(img.segments, i, j, b)), sum) == Layout(img, sum)[o := b]
  {
    var ss := img.segments;
    ChangeBytes(ss, i, j, b, |ss|);
    var all, o, h := SegmentsBytes(ss, |ss|), Offset(ss, i) + j, Header(img);
    UpdateBack(h, all, o, b);
    UpdateFront(h + all, Zeros(Padding(|h + all|)), 8 + o, b);
    UpdateFront(h + all + Zeros(Padding(|h + all|)), [sum], 8 + o, b);
  }

  lemma UpdateWithin(flash: seq<Byte>, base: nat, bytes: seq<Byte>, o: nat, b: Byte)
    requires Flashed(flash, base, bytes) && o < |bytes|
    ensures base + o < |flash| && Flashed(flash[base + o := b], base, bytes[o := b])
  {
  }

  /** One changed data byte, and the checker refuses the image. */
  lemma OneChangeIsRefused(flash: seq<Byte>, base: nat, img: Image, i: nat, j: nat, b: Byte)
    requires Legal(img) && 0 < base < WORD_LIMIT && base % 16 == 0
    requires Flashed(flash, base, Layout(img, Sum(img.segments, |img.segments|)))
    requires i < |img.segments| && j < |img.segments[i].data| && img.segments[i].data[j] != b
    ensures var at := base + Offset(img.segments, i) + 8 + j; at < |flash| && Check(flash[at := b], base) == 0
  {
    var sum := Sum(img.segments, |img.segments|);
    ChangedFlash(flash, base, img, sum, i, j, b);
    ChangedSum(img, i, j, b);
    RefusedWith(flash[base + Offset(img.segments, i) + 8 + j := b], base, img.(segments := Changed(img.segments, i, j, b)), sum);
  }

  /** The flash with the byte changed holds the image with the byte changed. */
  lemma ChangedFlash(flash: seq<Byte>, base: nat, img: Image, sum: Byte, i: nat, j: nat, b: Byte)
    requires |img.segments| < 256 && i < |img.segments| && j < |img.segments[i].data| && Flashed(flash, base, Layout(img, sum))
    ensures var at := base + Offset(img.segments, i) + 8 + j;
            at < |flash| && Flashed(flash[at := b], base, Layout(img.(segments := Changed(img.segments, i, j, b)), sum))
  {
    ChangeLayout(img, sum, i, j, b);
    UpdateWithin(flash, base, Layout(img, sum), Offset(img.segments, i) + 8 + j, b);
  }

  /** It is a legal image still, with another sum. */
  lemma ChangedSum(img: Image, i: nat, j: nat, b: Byte)
    requires Legal(img) && i < |img.segments| && j < |img.segments[i].data| && img.segments[i].data[j] != b
    ensures var ss := Changed(img.segments, i, j, b);
            Legal(img.(segments := ss)) && Sum(ss, |ss|) != Sum(img.segments, |img.segments|)
  {
    SumSeesChange(img.segments, i, j, b, |img.segments|);
  }

  lemma RefusedWith(flash: seq<Byte>, base: nat, img: Image, sum: Byte)
    requires Legal(img) && 0 < base < WORD_LIMIT && base % 16 == 0 && Flashed(flash, base, Layout(img, sum))
    requires sum != Sum(img.segments, |img.segments|)
    ensures Check(flash, base) == 0
  {
    CheckDecides(flash, base, img, sum);
  }

  // ----- loading -----

  type Memory = map<nat, Byte>

  /** The bytes of `s` from i to j written at `a`. */
  function Put(m: Memory, a: nat, s: seq<Byte>, i: nat, j: nat): (r: Memory)
    requires i <= j <= |s|
  {
    if i == j then m else Put(m, a, s, i, j - 1)[a + (j - 1 - i) := s[j - 1]]
  }

  lemma {:induction false} PutContinues(m: Memory, a: nat, s: seq<Byte>, i: nat, j: nat, k: nat)
    requires i <= j <= k <= |s|
    ensures Put(m, a, s, i, k) == Put(Put(m, a, s, i, j), a + (j - i), s, j, k)
  {
    if j < k { PutContinues(m, a, s, i, j, k - 1); }
  }

  lemma {:induction false} PutMoves(m: Memory, a: nat, s: seq<Byte>, i: nat, t: seq<Byte>, j: nat, n: nat)
    requires i + n <= |s| && j + n <= |t| && forall k :: i <= k < i + n ==> s[k] == t[k - i + j]
    ensures Put(m, a, s, i, i + n) == Put(m, a, t, j, j + n)
  {
    if n > 0 {
      PutMoves(m, a, s, i, t, j, n - 1);
    }
  }

  /** What is then where. */
  lemma {:induction false} PutWhere(m: Memory, a: nat, s: seq<Byte>, n: nat, k: nat)
    requires n <= |s|
    ensures var m' := Put(m, a, s, 0, n);
            if a <= k < a + n then k in m' && m'[k] == s[k - a] else (k in m' <==> k in m) && (k in m ==> m'[k] == m[k])
  {
    if n > 0 { PutWhere(m, a, s, n - 1, k); }
  }

  datatype Loading = Loading(pos: nat, memory: Memory)

  /** There is a section at `pos`. */
  predicate Whole(flash: seq<Byte>, pos: nat)
  {
    pos + 8 <= |flash| && pos + 8 + Word(flash, pos + 4) <= |flash|
  }

  /** One section loaded. */
  function Load1(flash: seq<Byte>, l: Loading): (r: Loading)
    requires Whole(flash, l.pos)
  {
    var end := l.pos + 8 + Word(flash, l.pos + 4);
    Loading(end, Put(l.memory, Word(flash, l.pos), flash, l.pos + 8, end))
  }

  /** Where the loader is after n sections. */
  function After(flash: seq<Byte>, start: nat, m: Memory, n: nat): (r: Loading)
  {
    if n == 0 then Loading(start, m)
    else
      var l := After(flash, start, m, n - 1);
      if Whole(flash, l.pos) then Load1(flash, l) else l
  }

  class Ram {
    var memory: Memory

    constructor (m: Memory)
      ensures memory == m
    {
      memory := m;
    }
  }

  method LoadData(flash: seq<Byte>, start: nat, address: nat, length: nat, ram: Ram) returns (readpos: nat)
    requires start + length <= |flash|
    modifies ram
    ensures readpos == start + length && ram.memory == Put(old(ram.memory), address, flash, start, start + length)
  {
    readpos := start;
    var writepos: nat, remaining: nat := address, length;
    while remaining > 0
      invariant readpos + remaining == start + length && writepos == address + (readpos - start) && start <= readpos
      invariant ram.memory == Put(old(ram.memory), address, flash, start, readpos)
    {
      var readlen := if remaining < BUFFER_SIZE then remaining else BUFFER_SIZE;
      var ok, buffer := SPIRead(flash, readpos, readlen);
      PutContinues(old(ram.memory), address, flash, start, readpos, readpos + readlen);
      PutMoves(ram.memory, writepos, flash, readpos, buffer, 0, readlen);
      readpos := readpos + readlen;
      ram.memory := Put(ram.memory, writepos, buffer, 0, readlen);
      writepos := writepos + readlen;
      remaining := remaining - readlen;
    }
  }

  method LoadSection(flash: seq<Byte>, start: nat, ram: Ram) returns (readpos: nat)
    requires Whole(flash, start)
    modifies ram
    ensures Loading(readpos, ram.memory) == Load1(flash, Loading(start, old(ram.memory)))
  {
    var ok, section := SPIRead(flash, start, 8);
    WordMoves(flash, start, start + 8, 0);
    WordMoves(flash, start, start + 8, 4);
    readpos := LoadData(flash, start + 8, Word(section, 0), Word(section, 4), ram);
  }

  predicate WholeAt(flash: seq<Byte>, start: nat, m: Memory, k: nat)
  {
    Whole(flash, After(flash, start, m, k).pos)
  }

  /** The loader finds n sections. */
  ghost predicate Loadable(flash: seq<Byte>, start: nat, m: Memory, n: nat)
  {
    forall k {:trigger WholeAt(flash, start, m, k)} :: 0 <= k < n ==> WholeAt(flash, start, m, k)
  }

  /** Copies the sections of a checked image to where they belong. */
  method LoadRom(flash: seq<Byte>, start: nat, ram: Ram) returns (usercode: nat)
    requires start + 8 <= |flash| && Loadable(flash, start + 8, ram.memory, flash[start + 1] as nat)
    modifies ram
    ensures usercode == Word(flash, start + 4)
    ensures ram.memory == After(flash, start + 8, old(ram.memory), flash[start + 1] as nat).memory
  {
    var ok, header := SPIRead(flash, start, 8);
    var readpos: nat := start + 8;
    WordMoves(flash, start, start + 8, 4);
    usercode := Word(header, 4);
    ghost var k, m := 0, ram.memory;
    var sectcount := header[1] as nat;
    while sectcount > 0
      invariant k + sectcount == flash[start + 1] as nat
      invariant After(flash, start + 8, m, k) == Loading(readpos, ram.memory)
    {
      assert WholeAt(flash, start + 8, m, k);
      readpos := LoadSection(flash, readpos, ram);
      sectcount := sectcount - 1;
      k := k + 1;
    }
  }

  // ----- the loader and the writer -----

  /** The first n segments written in order. */
  function Placed(m: Memory, ss: seq<Segment>, n: nat): (r: Memory)
    requires n <= |ss|
  {
    if n == 0 then m else Put(Placed(m, ss, n - 1), ss[n - 1].address, ss[n - 1].data, 0, |ss[n - 1].data|)
  }

  lemma LoadOne(flash: seq<Byte>, l: Loading, s: Segment)
    requires SectionIs(flash, l.pos, s)
    ensures Whole(flash, l.pos) && Load1(flash, l) == Loading(l.pos + 8 + |s.data|, Put(l.memory, s.address, s.data, 0, |s.data|))
  {
    PutMoves(l.memory, s.address, flash, l.pos + 8, s.data, 0, |s.data|);
  }

  lemma {:induction false} LoadsSegments(flash: seq<Byte>, base: nat, ss: seq<Segment>, m: Memory, n: nat)
    requires n <= |ss|
    requires forall i {:trigger Holds(flash, base, ss, i)} :: 0 <= i < |ss| ==> Holds(flash, base, ss, i)
    ensures After(flash, base + 8, m, n) == Loading(base + Offset(ss, n), Placed(m, ss, n))
    ensures n < |ss| ==> Whole(flash, base + Offset(ss, n))
  {
    if n < |ss| { assert Holds(flash, base, ss, n); }
    if n > 0 {
      LoadsSegments(flash, base, ss, m, n - 1);
      assert Holds(flash, base, ss, n - 1);
      LoadOne(flash, Loading(base + Offset(ss, n - 1), Placed(m, ss, n - 1)), ss[n - 1]);
    }
  }

  predicate Disjoint(ss: seq<Segment>)
  {
    forall i, j :: 0 <= i < j < |ss| ==>
      ss[i].address + |ss[i].data| <= ss[j].address || ss[j].address + |ss[j].data| <= ss[i].address
  }

  predicate Covers(s: Segment, a: nat)
  {
    s.address <= a < s.address + |s.data|
  }

  /** Segments that do not overlap all end up at their addresses, and nothing else changes. */
  lemma {:induction false} PlacedWhere(m: Memory, ss: seq<Segment>, n: nat, a: nat)
    requires n <= |ss| && Disjoint(ss)
    ensures forall i :: 0 <= i < n && Covers(ss[i], a) ==> a in Placed(m, ss, n) && Placed(m, ss, n)[a] == ss[i].data[a - ss[i].address]
    ensures (forall i :: 0 <= i < n ==> !Covers(ss[i], a)) ==>
              (a in Placed(m, ss, n) <==> a in m) && (a in m ==> Placed(m, ss, n)[a] == m[a])
  {
    if n > 0 {
      PlacedWhere(m, ss, n - 1, a);
      PutWhere(Placed(m, ss, n - 1), ss[n - 1].address, ss[n - 1].data, |ss[n - 1].data|, a);
    }
  }

  /** The loader and the writer agree: an image that was saved and flashed can be loaded, its
      entry point is returned, and memory is changed to hold exactly its segments. */
  lemma SavedIsLoaded(flash: seq<Byte>, base: nat, img: Image, sum: Byte, m: Memory)
    requires Legal(img) && Disjoint(img.segments) && Flashed(flash, base, Layout(img, sum))
    ensures var n := |img.segments|;
            && base + 8 <= |flash| && flash[base + 1] as nat == n && Word(flash, base + 4) == img.entry
            && Loadable(flash, base + 8, m, n)
            && IsLoaded(After(flash, base + 8, m, n).memory, m, img.segments)
  {
    var ss, n := img.segments, |img.segments|;
    FlashEnds(flash, base, img, sum);
    WordValue(flash, base + 4, img.entry);
    FlashHolds(flash, base, img, sum);
    var start := base + 8;
    forall k | 0 <= k < n ensures WholeAt(flash, start, m, k) {
      LoadsSegments(flash, base, ss, m, k);
    }
    LoadsSegments(flash, base, ss, m, n);
    AllPlaced(m, ss, Placed(m, ss, n));
  }

  lemma AllPlaced(m: Memory, ss: seq<Segment>, m': Memory)
    requires Disjoint(ss) && m' == Placed(m, ss, |ss|)
    ensures IsLoaded(m', m, ss)
  {
    forall a: nat ensures IsWhere(m', m, ss, a) { PlacedWhere(m, ss, |ss|, a); }
  }

  ghost predicate IsLoaded(m': Memory, m: Memory, ss: seq<Segment>)
  {
    forall a: nat :: IsWhere(m', m, ss, a)
  }

  /** At `a` the new memory has the byte of the segment that covers it, or else what it had. */
  ghost predicate IsWhere(m': Memory, m: Memory, ss: seq<Segment>, a: nat)
  {
    && (forall i :: 0 <= i < |ss| && Covers(ss[i], a) ==> a in m' && m'[a] == ss[i].data[a - ss[i].address])
    && ((forall i :: 0 <= i < |ss| ==> !Covers(ss[i], a)) ==> (a in m' <==> a in m) && (a in m ==> m'[a] == m[a]))
  }
}
