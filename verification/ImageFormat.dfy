/**
 The format of version 1 images field by field, what loads in all, and which error the rest
 gets.
 */
module ImageFormat {
  import opened Bytes
  import opened Image

  /** Where each number of the header is: magic, count, flash mode, size and frequency, entry. */
  lemma HeaderFields(img: Image, sum: Byte)
    requires Packs(img)
    ensures var b := Layout(img, sum);
            && |b| >= 16 && b[0] == 0xe9 && b[1] as nat == |img.segments|
            && b[2] == img.flashMode && b[3] == img.flashSizeFreq && Word(b, 4) == img.entry
  {
    var b := Layout(img, sum);
    LayoutFillsBlocks(img, sum);
    LayoutParts(img, sum);
    assert b[0] == b[..8][0] && b[1] == b[..8][1] && b[2] == b[..8][2] && b[3] == b[..8][3];
    assert b[4..8] == b[..8][4..8] == Le(img.entry);
    WordValue(b, 4, img.entry);
  }

  /** Segment i: its address, its length, and its data. */
  lemma SegmentFields(img: Image, sum: Byte, i: nat)
    requires Legal(img) && i < |img.segments|
    ensures var b, o, s := Layout(img, sum), Offset(img.segments, i), img.segments[i];
            && o + 8 + |s.data| < |b| && Word(b, o) == s.address && Word(b, o + 4) == |s.data|
            && b[o + 8..o + 8 + |s.data|] == s.data
  {
    SegmentAt(img, sum, i);
    SegmentReads(Layout(img, sum), Offset(img.segments, i), img.segments[i]);
  }

  /** The bytes of one small image, written out. */
  lemma OneImage()
    ensures var img := Image(2, 0x40, 0x4010_0004, [Segment(0x4010_0000, [1, 2, 3, 4])]);
            Sum(img.segments, 1) == 0xeb
            && Layout(img, 0xeb) == [0xe9, 1, 2, 0x40, 4, 0, 0x10, 0x40, 0, 0, 0x10, 0x40, 4, 0, 0, 0, 1, 2, 3, 4,
                                     0, 0, 0, 0, 0, 0, 0, 0, 0, 0, 0, 0xeb]
  {
    var data: seq<Byte> := [1, 2, 3, 4];
    var img := Image(2, 0x40, 0x4010_0004, [Segment(0x4010_0000, data)]);
    SumOfOne(data);
    assert Sum(img.segments, 0) == CHECKSUM_MAGIC && Sum(img.segments, 1) == Checksum(data, 0, 4, 0xef);
    BytesOfOne(img);
    LayoutIs(img, 0xeb, 11);
    Padded(Header(img) + SegmentsBytes(img.segments, 1));
  }

  lemma Padded(body: seq<Byte>)
    requires body == [0xe9, 1, 2, 0x40, 4, 0, 0x10, 0x40, 0, 0, 0x10, 0x40, 4, 0, 0, 0, 1, 2, 3, 4]
    ensures body + Zeros(11) + [0xeb] ==
            [0xe9, 1, 2, 0x40, 4, 0, 0x10, 0x40, 0, 0, 0x10, 0x40, 4, 0, 0, 0, 1, 2, 3, 4,
             0, 0, 0, 0, 0, 0, 0, 0, 0, 0, 0, 0xeb]
  {
  }

  lemma LayoutIs(img: Image, sum: Byte, n: nat)
    requires |img.segments| < 256
    requires n == Padding(|Header(img) + SegmentsBytes(img.segments, |img.segments|)|)
    ensures Layout(img, sum) == Header(img) + SegmentsBytes(img.segments, |img.segments|) + Zeros(n) + [sum]
  {
  }

  lemma BytesOfOne(img: Image)
    requires img == Image(2, 0x40, 0x4010_0004, [Segment(0x4010_0000, [1, 2, 3, 4])])
    ensures Header(img) + SegmentsBytes(img.segments, 1) ==
            [0xe9, 1, 2, 0x40, 4, 0, 0x10, 0x40, 0, 0, 0x10, 0x40, 4, 0, 0, 0, 1, 2, 3, 4]
  {
    assert SegmentsBytes(img.segments, 0) == [];
    assert Le(0x4010_0000) == [0, 0, 0x10, 0x40] && Le(0x4010_0004) == [4, 0, 0x10, 0x40] && Le(4) == [4, 0, 0, 0];
  }

  lemma SumOfOne(data: seq<Byte>)
    requires data == [1, 2, 3, 4]
    ensures Checksum(data, 0, 4, 0xef) == 0xeb
  {
    SmallXors();
    assert Checksum(data, 0, 0, 0xef) == 0xef;
    assert Checksum(data, 0, 1, 0xef) == Xor(Checksum(data, 0, 0, 0xef), data[0]) == 0xee;
    assert Checksum(data, 0, 2, 0xef) == Xor(Checksum(data, 0, 1, 0xef), data[1]) == 0xec;
    assert Checksum(data, 0, 3, 0xef) == Xor(Checksum(data, 0, 2, 0xef), data[2]) == 0xef;
    assert Checksum(data, 0, 4, 0xef) == Xor(Checksum(data, 0, 3, 0xef), data[3]) == 0xeb;
  }

  lemma SmallXors()
    ensures Xor(0xef, 1) == 0xee && Xor(0xee, 2) == 0xec && Xor(0xec, 3) == 0xef && Xor(0xef, 4) == 0xeb
  {
    XorBit(0xef, 1);
    XorBit(0xee, 2);
    XorBit(0x77, 1);
    XorBit(0xec, 3);
    XorBit(0x76, 1);
    XorBit(0xef, 4);
    XorBit(0x77, 2);
    XorBit(0x3b, 1);
  }

  // ----- what loads -----

  /** Whatever starts with the header and the segments of a legal image, and goes on as far as
      the place of the checksum, loads as that image: the bytes in between do not matter. */
  lemma LoadsIfLaidOut(bytes: seq<Byte>, img: Image)
    requires Legal(img)
    requires var n := Offset(img.segments, |img.segments|);
             n + Padding(n) < |bytes| && bytes[..n] == Header(img) + SegmentsBytes(img.segments, |img.segments|)
    ensures var n := Offset(img.segments, |img.segments|);
            LoadedFrom(bytes) == Ok(Loaded(img, bytes[n + Padding(n)]))
  {
    var ss := img.segments;
    var n := Offset(ss, |ss|);
    OffsetSkips(ss, |ss|);
    AllRead(bytes, img);
    SegmentsRead(bytes, ss, |ss|);
    assert ss[..|ss|] == ss;
    HeaderOf(bytes, img, n);
  }

  lemma AllRead(bytes: seq<Byte>, img: Image)
    requires Legal(img)
    requires var n := Offset(img.segments, |img.segments|);
             n <= |bytes| && bytes[..n] == Header(img) + SegmentsBytes(img.segments, |img.segments|)
    ensures forall i {:trigger ReadsAt(bytes, img.segments, i)} :: 0 <= i < |img.segments| ==> ReadsAt(bytes, img.segments, i)
  {
    forall i | 0 <= i < |img.segments| ensures ReadsAt(bytes, img.segments, i) {
      InBody(bytes, img, i);
      SegmentReads(bytes, Offset(img.segments, i), img.segments[i]);
    }
  }

  lemma HeaderOf(bytes: seq<Byte>, img: Image, n: nat)
    requires Legal(img) && 8 <= n <= |bytes|
    requires bytes[..n] == Header(img) + SegmentsBytes(img.segments, |img.segments|)
    ensures bytes[0] == IMAGE_MAGIC && bytes[1] as nat == |img.segments|
    ensures bytes[2] == img.flashMode && bytes[3] == img.flashSizeFreq && Word(bytes, 4) == img.entry
  {
    var h, t := Header(img), bytes[..n];
    assert t[..8] == h;
    assert bytes[0] == t[..8][0] && bytes[1] == t[..8][1] && bytes[2] == t[..8][2] && bytes[3] == t[..8][3];
    assert bytes[4..8] == t[..8][4..8] == Le(img.entry);
    WordValue(bytes, 4, img.entry);
  }

  lemma InBody(bytes: seq<Byte>, img: Image, i: nat)
    requires |img.segments| < 256 && i < |img.segments|
    requires var n := Offset(img.segments, |img.segments|);
             n <= |bytes| && bytes[..n] == Header(img) + SegmentsBytes(img.segments, |img.segments|)
    ensures var o, s := Offset(img.segments, i), img.segments[i];
            o + 8 + |s.data| <= |bytes| && bytes[o..o + 8 + |s.data|] == SegmentBytes(s)
  {
    var ss := img.segments;
    var n, o, m, h, all := Offset(ss, |ss|), Offset(ss, i), 8 + |ss[i].data|, Header(img), SegmentsBytes(ss, |ss|);
    OffsetSkips(ss, |ss|);
    SegmentIn(ss, |ss|, i);
    PartOf(bytes, n, h, all, SegmentBytes(ss[i]), o, o + m);
  }

  lemma PartOf(bytes: seq<Byte>, n: nat, h: seq<Byte>, all: seq<Byte>, part: seq<Byte>, i: nat, j: nat)
    requires n <= |bytes| && bytes[..n] == h + all && |h| <= i <= j <= |h + all| && all[i - |h|..j - |h|] == part
    ensures j <= |bytes| && bytes[i..j] == part
  {
    BehindIt(h, all, i, j);
    OfPrefix(bytes, n, i, j);
  }

  lemma BehindIt(h: seq<Byte>, all: seq<Byte>, i: nat, j: nat)
    requires |h| <= i <= j <= |h + all|
    ensures (h + all)[i..j] == all[i - |h|..j - |h|]
  {
  }

  lemma OfPrefix(bytes: seq<Byte>, n: nat, i: nat, j: nat)
    requires i <= j <= n <= |bytes|
    ensures bytes[..n][i..j] == bytes[i..j]
  {
  }

  /** Bytes load if and only if they are so laid out. */
  lemma LoadsExactly(bytes: seq<Byte>, img: Image, sum: Byte)
    ensures LoadedFrom(bytes) == Ok(Loaded(img, sum)) <==> LaidOut(bytes, img, sum)
  {
    if LoadedFrom(bytes) == Ok(Loaded(img, sum)) { LoadedIsLaidOut(bytes); }
    if LaidOut(bytes, img, sum) { LoadsIfLaidOut(bytes, img); }
  }

  predicate LaidOut(bytes: seq<Byte>, img: Image, sum: Byte)
  {
    && Legal(img)
    && var n := Offset(img.segments, |img.segments|);
       && n + Padding(n) < |bytes| && bytes[n + Padding(n)] == sum
       && bytes[..n] == Header(img) + SegmentsBytes(img.segments, |img.segments|)
  }

  lemma LoadedIsLaidOut(bytes: seq<Byte>)
    requires LoadedFrom(bytes).Ok?
    ensures LaidOut(bytes, LoadedFrom(bytes).value.img, LoadedFrom(bytes).value.sum)
  {
    LoadThenSave(bytes);
    SegmentsWrite(bytes, bytes[1] as nat);
  }

  // ----- which error -----

  /** The first i segments are there, the head of the next is too, and it is suspicious. */
  predicate SuspiciousAt(bytes: seq<Byte>, i: nat)
  {
    SegmentsOf(bytes, i).Ok? &&
    (var pos := SegmentsOf(bytes, i).value.pos;
     pos + 8 <= |bytes| && (Word(bytes, pos) < 0x3ffe_0000 || Word(bytes, pos) > 0x4020_0000 || Word(bytes, pos + 4) > 65536))
  }

  lemma SuspicionShows(bytes: seq<Byte>, i: nat, n: nat)
    requires i < n && SuspiciousAt(bytes, i)
    ensures SegmentsOf(bytes, n) == Err(SuspiciousSegment)
  {
    var pos := SegmentsOf(bytes, i).value.pos;
    assert SegmentOf(bytes, pos) == Err(SuspiciousSegment);
    ErrorStays(bytes, i + 1, n);
  }

  lemma {:induction false} WhereSuspicious(bytes: seq<Byte>, n: nat) returns (i: nat)
    requires SegmentsOf(bytes, n) == Err(SuspiciousSegment)
    ensures i < n && SuspiciousAt(bytes, i)
  {
    if SegmentsOf(bytes, n - 1).Err? { i := WhereSuspicious(bytes, n - 1); } else { i := n - 1; }
  }

  lemma {:induction false} NoOtherErrors(bytes: seq<Byte>, n: nat)
    ensures SegmentsOf(bytes, n).Err? ==> SegmentsOf(bytes, n).error in {SuspiciousSegment, EndOfFile}
  {
    if n > 0 { NoOtherErrors(bytes, n - 1); }
  }

  /** Wrong magic or more than 16 segments make an image invalid; a segment that is there but
      has an address outside the chip's memory or more than 65536 bytes makes it suspicious;
      and anything else that does not load ends too early. */
  lemma ErrorKinds(bytes: seq<Byte>)
    ensures var r := LoadedFrom(bytes);
            && (r == Err(InvalidImage) <==> |bytes| >= 8 && (bytes[0] != 0xe9 || bytes[1] > 16))
            && (r == Err(SuspiciousSegment) <==>
                  |bytes| >= 8 && bytes[0] == 0xe9 && bytes[1] <= 16
                  && exists i :: 0 <= i < bytes[1] as nat && SuspiciousAt(bytes, i))
            && (r.Err? ==> r.error in {InvalidImage, SuspiciousSegment, EndOfFile})
  {
    if |bytes| >= 8 {
      var n := bytes[1] as nat;
      NoOtherErrors(bytes, n);
      if SegmentsOf(bytes, n) == Err(SuspiciousSegment) {
        var i := WhereSuspicious(bytes, n);
        assert SuspiciousAt(bytes, i);
      }
      if i :| 0 <= i < n && SuspiciousAt(bytes, i) { SuspicionShows(bytes, i, n); }
    }
  }
}
