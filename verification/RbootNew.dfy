/**
 The checker on new type images, which have a header and an irom section of their own before
 an image of the old type, and what it takes for an image to be accepted at all.
 */
module RbootNew {
  import opened Bytes
  import opened Image
  import opened ImageFormat
  import opened Rboot

  // ----- walking from anywhere -----

  /** The checksum of the first n segments, from any state. */
  function SumFrom(state: Byte, ss: seq<Segment>, n: nat): (r: Byte)
    requires n <= |ss|
  {
    if n == 0 then state else Checksum(ss[n - 1].data, 0, |ss[n - 1].data|, SumFrom(state, ss, n - 1))
  }

  /** The irom section counts as a segment before the others. */
  lemma {:induction false} SumWithIrom(irom: Segment, ss: seq<Segment>, n: nat)
    requires n <= |ss|
    ensures Sum([irom] + ss, n + 1) == SumFrom(Checksum(irom.data, 0, |irom.data|, CHECKSUM_MAGIC), ss, n)
  {
    var all := [irom] + ss;
    if n == 0 {
      assert Sum(all, 0) == CHECKSUM_MAGIC && all[0] == irom;
    } else {
      SumWithIrom(irom, ss, n - 1);
      assert all[n] == ss[n - 1];
    }
  }

  lemma SumOfAll(irom: Segment, ss: seq<Segment>, all: seq<Segment>)
    requires all == [irom] + ss
    ensures SumFrom(Checksum(irom.data, 0, |irom.data|, CHECKSUM_MAGIC), ss, |ss|) == Sum(all, |all|)
  {
    SumWithIrom(irom, ss, |ss|);
  }

  /** The sections that follow the irom section. */
  lemma {:induction false} WalkRest(flash: seq<Byte>, at: nat, ss: seq<Segment>, n: nat, state: Byte)
    requires n <= |ss| <= 16
    requires forall i {:trigger Holds(flash, at, ss, i)} :: 0 <= i < |ss| ==> Holds(flash, at, ss, i)
    ensures Sections(flash, at + Offset(ss, n), n + 1, |ss| + 1, SumFrom(state, ss, n))
         == Walked(at + Offset(ss, |ss|), SumFrom(state, ss, |ss|))
    decreases |ss| - n
  {
    if n < |ss| {
      assert Holds(flash, at, ss, n);
      WalkOne(flash, at + Offset(ss, n), ss[n], n + 1, |ss| + 1, SumFrom(state, ss, n));
      WalkRest(flash, at, ss, n + 1, state);
    }
  }

  // ----- new type images -----

  /** The first header of a new type image, of which only the magic and the length matter, the
      irom section, and the image proper up to the end of its segments. */
  function NewBody(flags: seq<Byte>, irom: Segment, img: Image): (r: seq<Byte>)
    requires |flags| == 6 && |img.segments| < 256
  {
    [0xea, 0x04] + flags + SegmentBytes(irom) + (Header(img) + SegmentsBytes(img.segments, |img.segments|))
  }

  /** It ends in the byte for the checksum, at the end of a block of 16. */
  function NewLayout(flags: seq<Byte>, irom: Segment, img: Image, sum: Byte): (r: seq<Byte>)
    requires |flags| == 6 && |img.segments| < 256
  {
    var body := NewBody(flags, irom, img);
    body + Zeros(Padding(|body|)) + [sum]
  }

  /** Where the parts of a flashed new type image are. */
  lemma NewParts(flash: seq<Byte>, base: nat, flags: seq<Byte>, irom: Segment, img: Image)
    requires |flags| == 6 && Legal(img) && irom.address < WORD_LIMIT && |irom.data| < WORD_LIMIT
    requires Flashed(flash, base, NewBody(flags, irom, img))
    ensures var at, n := base + 16 + |irom.data|, Offset(img.segments, |img.segments|);
            && at + n == base + |NewBody(flags, irom, img)| <= |flash|
            && flash[base] == 0xea && flash[base + 1] == 0x04
            && SectionIs(flash, base + 8, irom)
            && BodyAt(flash, at, img)
  {
    var h, s, b := [0xea as Byte, 0x04] + flags, SegmentBytes(irom), Header(img) + SegmentsBytes(img.segments, |img.segments|);
    OffsetSkips(img.segments, |img.segments|);
    Thirds(flash, base, h, s, b);
    assert flash[base] == flash[base..base + 8][0] && flash[base + 1] == flash[base..base + 8][1];
    IsSection(flash, base + 8, irom);
  }

  lemma Thirds(flash: seq<Byte>, base: nat, h: seq<Byte>, s: seq<Byte>, b: seq<Byte>)
    requires Flashed(flash, base, h + s + b)
    ensures var i, j, k := base + |h|, base + |h| + |s|, base + |h| + |s| + |b|;
            flash[base..i] == h && flash[i..j] == s && flash[j..k] == b
  {
    var t := flash[base..base + |h| + |s| + |b|];
    Within(flash, base, |t|, 0, |h|);
    Within(flash, base, |t|, |h|, |h| + |s|);
    Within(flash, base, |t|, |h| + |s|, |t|);
    assert t == h + s + b;
    assert t[0..|h|] == h && t[|h|..|h| + |s|] == s && t[|h| + |s|..|t|] == b;
  }

  lemma IsSection(flash: seq<Byte>, pos: nat, s: Segment)
    requires s.address < WORD_LIMIT && |s.data| < WORD_LIMIT
    requires pos + 8 + |s.data| <= |flash| && flash[pos..pos + 8 + |s.data|] == SegmentBytes(s)
    ensures SectionIs(flash, pos, s)
  {
    var t := SegmentBytes(s);
    assert t[0..4] == Le(s.address) && t[4..8] == Le(|s.data|) && t[8..|t|] == s.data;
    Within(flash, pos, |t|, 0, 4);
    Within(flash, pos, |t|, 4, 8);
    Within(flash, pos, |t|, 8, |t|);
    WordValue(flash, pos, s.address);
    WordValue(flash, pos + 4, |s.data|);
    SliceIs(flash, pos + 8, s.data);
  }

  lemma RestHolds(flash: seq<Byte>, at: nat, img: Image)
    requires Legal(img) && BodyAt(flash, at, img)
    ensures forall i {:trigger Holds(flash, at, img.segments, i)} :: 0 <= i < |img.segments| ==> Holds(flash, at, img.segments, i)
  {
    forall i | 0 <= i < |img.segments| ensures Holds(flash, at, img.segments, i) { OneHolds(flash, at, img, i); }
  }

  /** The header and the segments of the image are at `at`. */
  predicate BodyAt(flash: seq<Byte>, at: nat, img: Image)
    requires |img.segments| < 256
  {
    var n := Offset(img.segments, |img.segments|);
    at + n <= |flash| && flash[at..at + n] == Header(img) + SegmentsBytes(img.segments, |img.segments|)
  }

  lemma OneHolds(flash: seq<Byte>, at: nat, img: Image, i: nat)
    requires Legal(img) && BodyAt(flash, at, img) && i < |img.segments|
    ensures Holds(flash, at, img.segments, i)
  {
    var n, o, s := Offset(img.segments, |img.segments|), Offset(img.segments, i), img.segments[i];
    var body := flash[at..at + n];
    assert body[..n] == body;
    InBody(body, img, i);
    Within(flash, at, n, o, o + 8 + |s.data|);
    IsSection(flash, at + o, s);
  }

  lemma CountAt(flash: seq<Byte>, at: nat, img: Image)
    requires Legal(img) && BodyAt(flash, at, img)
    ensures at + 8 <= |flash| && flash[at + 1] as nat == |img.segments|
  {
    var n := Offset(img.segments, |img.segments|);
    var body := flash[at..at + n];
    OffsetSkips(img.segments, |img.segments|);
    assert body[..n] == body;
    HeaderOf(body, img, n);
  }

  /** A new type image at a 16-aligned address is accepted exactly if the byte in the place of
      the checksum is that of the irom section and the segments; the address reported is that
      of the image proper, behind the irom section. */
  lemma CheckDecidesNew(flash: seq<Byte>, base: nat, flags: seq<Byte>, irom: Segment, img: Image, sum: Byte)
    requires |flags| == 6 && Legal(img) && irom.address < WORD_LIMIT
    requires 0 < base && base % 16 == 0 && base + 16 + |irom.data| < WORD_LIMIT
    requires Flashed(flash, base, NewLayout(flags, irom, img, sum))
    ensures var all := [irom] + img.segments;
            Check(flash, base) == if sum == Sum(all, |all|) then base + 16 + |irom.data| else 0
  {
    var all, at, n := [irom] + img.segments, base + 16 + |irom.data|, Offset(img.segments, |img.segments|);
    var end := at + n;
    NewStarts(flash, base, flags, irom, img, sum);
    NewParts(flash, base, flags, irom, img);
    NewEnds(flash, base, flags, irom, img, sum, end);
    IromSum(flash, base, irom);
    WalkNew(flash, base, irom, img, all, at);
    NewVerdict(flash, base, at, end, Sum(all, |all|), |irom.data|, sum);
  }

  lemma WalkNew(flash: seq<Byte>, base: nat, irom: Segment, img: Image, all: seq<Segment>, at: nat)
    requires at == base + 16 + |irom.data| && Legal(img) && SectionIs(flash, base + 8, irom) && BodyAt(flash, at, img)
    requires all == [irom] + img.segments
    ensures Sections(flash, base + 8, FIRST, 255, CHKSUM_INIT)
         == Walked(at + Offset(img.segments, |img.segments|), Sum(all, |all|))
  {
    var ss := img.segments;
    CountAt(flash, at, img);
    RestHolds(flash, at, img);
    IromSum(flash, base, irom);
    SumOfAll(irom, ss, all);
    WalkAfter(flash, base + 8, at, ss, Checksum(irom.data, 0, |irom.data|, CHECKSUM_MAGIC), Sum(all, |all|));
  }

  lemma WalkAfter(flash: seq<Byte>, pos: nat, at: nat, ss: seq<Segment>, init: Byte, total: Byte)
    requires total == SumFrom(init, ss, |ss|)
    requires pos + 8 <= at && at + 8 <= |flash| && at == pos + 8 + Word(flash, pos + 4) && init == Checksum(flash, pos + 8, at, CHKSUM_INIT)
    requires |ss| <= 16 && flash[at + 1] as nat == |ss|
    requires forall i {:trigger Holds(flash, at, ss, i)} :: 0 <= i < |ss| ==> Holds(flash, at, ss, i)
    ensures Sections(flash, pos, FIRST, 255, CHKSUM_INIT) == Walked(at + Offset(ss, |ss|), total)
  {
    var next := at + Offset(ss, FIRST);
    assert next == at + 8;
    IromStep(flash, pos, at, next, init, CHKSUM_INIT, |ss| + 1, FIRST);
    WalkRest(flash, at, ss, FIRST, init);
    assert SumFrom(init, ss, FIRST) == init;
  }

  /** The body is there, and behind it the checksum. */
  lemma NewStarts(flash: seq<Byte>, base: nat, flags: seq<Byte>, irom: Segment, img: Image, sum: Byte)
    requires |flags| == 6 && |img.segments| < 256 && Flashed(flash, base, NewLayout(flags, irom, img, sum))
    ensures Flashed(flash, base, NewBody(flags, irom, img))
  {
    var body := NewBody(flags, irom, img);
    LastOf(flash, base, body, Zeros(Padding(|body|)), sum);
  }

  lemma NewEnds(flash: seq<Byte>, base: nat, flags: seq<Byte>, irom: Segment, img: Image, sum: Byte, end: nat)
    requires |flags| == 6 && |img.segments| < 256 && base % 16 == 0 && Flashed(flash, base, NewLayout(flags, irom, img, sum))
    requires end == base + |NewBody(flags, irom, img)|
    ensures end + Padding(end) < |flash| && flash[end + Padding(end)] == sum
  {
    var body := NewBody(flags, irom, img);
    PaddingShifts(base, |body|);
    LastOf(flash, base, body, Zeros(Padding(|body|)), sum);
  }

  lemma LastOf(flash: seq<Byte>, base: nat, body: seq<Byte>, z: seq<Byte>, sum: Byte)
    requires Flashed(flash, base, body + z + [sum])
    ensures Flashed(flash, base, body) && flash[base + |body| + |z|] == sum
  {
    var t := flash[base..base + |body| + |z| + 1];
    assert t[|body| + |z|] == sum && t[..|body|] == body;
    assert flash[base..base + |body|] == t[..|body|];
  }

  lemma IromSum(flash: seq<Byte>, base: nat, irom: Segment)
    requires SectionIs(flash, base + 8, irom)
    ensures Word(flash, base + 12) == |irom.data|
    ensures Checksum(flash, base + 16, base + 16 + |irom.data|, CHKSUM_INIT) == Checksum(irom.data, 0, |irom.data|, CHECKSUM_MAGIC)
  {
    ChecksumMoves(flash, base + 16, irom.data, 0, |irom.data|, CHKSUM_INIT);
  }

  /** The irom section is walked first, and the count of the others is read behind it. */
  lemma IromStep(flash: seq<Byte>, pos: nat, end: nat, next: nat, sum: Byte, chksum: Byte, count: nat, first: nat)
    requires pos + 8 <= end && end + 8 <= |flash| && end == pos + 8 + Word(flash, pos + 4) && first == 0
    requires next == end + 8 && sum == Checksum(flash, pos + 8, end, chksum) && count == (flash[end + 1] as nat + 1) % 256
    ensures Sections(flash, pos, first, 255, chksum) == Sections(flash, next, first + 1, count, sum)
  {
  }

  lemma NewVerdict(flash: seq<Byte>, base: nat, at: nat, end: nat, chksum: Byte, len: nat, stored: Byte)
    requires 0 < base && base % 16 == 0 && at == base + 16 + len < WORD_LIMIT && base + 16 <= |flash|
    requires flash[base] == 0xea && flash[base + 1] == 0x04 && Word(flash, base + 12) == len
    requires Sections(flash, base + 8, FIRST, 255, CHKSUM_INIT) == Walked(end, chksum)
    requires end + Padding(end) < |flash| && flash[end + Padding(end)] == stored
    ensures Check(flash, base) == if stored == chksum then at else 0
  {
    NewEntry(flash, base, len);
  }

  lemma NewEntry(flash: seq<Byte>, base: nat, len: nat)
    requires 0 < base && base % 16 == 0 && base + 16 + len < WORD_LIMIT && base + 16 <= |flash|
    requires flash[base] == 0xea && flash[base + 1] == 0x04 && Word(flash, base + 12) == len
    ensures EntryOf(flash, base) == Rom(base + 16 + len, 255)
  {
    NoWrap(base + len + 16);
  }

  lemma NoWrap(n: nat)
    requires n < WORD_LIMIT
    ensures n % WORD_LIMIT == n
  {
  }

  // ----- what is accepted -----

  /** Nothing is accepted at the two addresses that mean "none", or without one of the magics. */
  lemma OnlyWithMagic(flash: seq<Byte>, pos: nat)
    requires Check(flash, pos) != 0
    ensures pos != 0 && pos != 0xffff_ffff && pos + 16 <= |flash|
    ensures flash[pos] == 0xe9 || (flash[pos] == 0xea && flash[pos + 1] == 0x04)
  {
  }

  /** The sections that a walk has passed. */
  lemma {:induction false} WalkedOver(flash: seq<Byte>, at: nat, ss: seq<Segment>, count: nat) returns (all: seq<Segment>)
    requires |ss| <= count < 255
    requires forall i {:trigger Holds(flash, at, ss, i)} :: 0 <= i < |ss| ==> Holds(flash, at, ss, i)
    requires Sections(flash, at + Offset(ss, |ss|), |ss|, count, Sum(ss, |ss|)).Walked?
    ensures |all| == count && forall i {:trigger Holds(flash, at, all, i)} :: 0 <= i < |all| ==> Holds(flash, at, all, i)
    ensures Sections(flash, at + Offset(ss, |ss|), |ss|, count, Sum(ss, |ss|)) == Walked(at + Offset(all, count), Sum(all, count))
    decreases count - |ss|
  {
    all := ss;
    if |ss| < count {
      var pos := at + Offset(ss, |ss|);
      var s := Segment(Word(flash, pos), flash[pos + 8..pos + 8 + Word(flash, pos + 4)]);
      OneMoreSection(flash, at, ss, s);
      WalkOne(flash, pos, s, |ss|, count, Sum(ss, |ss|));
      all := WalkedOver(flash, at, ss + [s], count);
    }
  }

  lemma OneMoreSection(flash: seq<Byte>, at: nat, ss: seq<Segment>, s: Segment)
    requires forall i {:trigger Holds(flash, at, ss, i)} :: 0 <= i < |ss| ==> Holds(flash, at, ss, i)
    requires SectionIs(flash, at + Offset(ss, |ss|), s)
    ensures var more := ss + [s];
            && (forall i {:trigger Holds(flash, at, more, i)} :: 0 <= i < |more| ==> Holds(flash, at, more, i))
            && Offset(more, |more|) == Offset(ss, |ss|) + 8 + |s.data|
            && Sum(more, |more|) == Checksum(s.data, 0, |s.data|, Sum(ss, |ss|))
  {
    var more := ss + [s];
    forall i | 0 <= i <= |ss| ensures Offset(more, i) == Offset(ss, i) && Sum(more, i) == Sum(ss, i) { PrefixSums(ss, s, i); }
    forall i | 0 <= i < |more| ensures Holds(flash, at, more, i) {
      if i < |ss| { assert Holds(flash, at, ss, i); }
    }
  }

  lemma {:induction false} PrefixSums(ss: seq<Segment>, s: Segment, n: nat)
    requires n <= |ss|
    ensures Offset(ss + [s], n) == Offset(ss, n) && Sum(ss + [s], n) == Sum(ss, n)
  {
    if n > 0 { PrefixSums(ss, s, n - 1); }
  }

  /** All sections of `ss` are there, and the byte in the place of the checksum is theirs. */
  ghost predicate Intact(flash: seq<Byte>, pos: nat, ss: seq<Segment>)
  {
    && (forall i {:trigger Holds(flash, pos, ss, i)} :: 0 <= i < |ss| ==> Holds(flash, pos, ss, i))
    && var end := pos + Offset(ss, |ss|); end + Padding(end) < |flash| && flash[end + Padding(end)] == Sum(ss, |ss|)
  }

  lemma AcceptedWalk(flash: seq<Byte>, pos: nat)
    requires Check(flash, pos) != 0
    ensures pos + 16 <= |flash|
    ensures flash[pos] == 0xe9 && flash[pos + 1] < 255 ==>
              && Check(flash, pos) == pos == Verdict(flash, pos, Sections(flash, pos + 8, FIRST, flash[pos + 1] as nat, CHKSUM_INIT))
              && pos != 0 && Sections(flash, pos + 8, FIRST, flash[pos + 1] as nat, CHKSUM_INIT).Walked?
  {
  }

  /** The sections that a whole walk has passed. */
  lemma WholeWalk(flash: seq<Byte>, pos: nat, count: nat, w: Walk) returns (ss: seq<Segment>)
    requires count < 255 && w == Sections(flash, pos + 8, FIRST, count, CHKSUM_INIT) && w.Walked?
    ensures |ss| == count && w == Walked(pos + Offset(ss, |ss|), Sum(ss, |ss|))
    ensures forall i {:trigger Holds(flash, pos, ss, i)} :: 0 <= i < |ss| ==> Holds(flash, pos, ss, i)
  {
    ss := [];
    FromTheStart(ss);
    ss := WalkedOver(flash, pos, ss, count);
  }

  lemma FromTheStart(ss: seq<Segment>)
    requires ss == []
    ensures Offset(ss, 0) == 8 && Sum(ss, 0) == CHKSUM_INIT && FIRST == 0
  {
  }

  lemma VerdictMeans(flash: seq<Byte>, pos: nat, end: nat, chksum: Byte)
    requires Verdict(flash, pos, Walked(end, chksum)) == pos != 0
    ensures end + Padding(end) < |flash| && flash[end + Padding(end)] == chksum
  {
  }

  /** An old type image is accepted only if all the sections that its header announces are
      there and the byte in the place of the checksum is theirs. */
  lemma AcceptedIsIntact(flash: seq<Byte>, pos: nat) returns (ss: seq<Segment>)
    requires Check(flash, pos) != 0
    requires pos + 1 < |flash| && flash[pos] == 0xe9 && flash[pos + 1] < 255
    ensures Check(flash, pos) == pos && |ss| == flash[pos + 1] as nat && Intact(flash, pos, ss)
  {
    AcceptedWalk(flash, pos);
    var w := Sections(flash, pos + 8, FIRST, flash[pos + 1] as nat, CHKSUM_INIT);
    ss := WholeWalk(flash, pos, flash[pos + 1] as nat, w);
    VerdictMeans(flash, pos, pos + Offset(ss, |ss|), Sum(ss, |ss|));
  }
}
