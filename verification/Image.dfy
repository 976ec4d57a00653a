/**
 Version 1 firmware images: their bytes, the ROM's checksum, and the writer and the loader
 that put them through a file.
 */
module Image {
  import opened Bytes

  // ----- bytes and words -----

  const WORD_LIMIT: nat := 0x1_0000_0000

  /** A 32-bit word, the lowest byte first. */
  function Le(n: nat): (r: seq<Byte>)
    ensures |r| == 4
  {
    [(n % 256) as Byte, (n / 256 % 256) as Byte, (n / 65536 % 256) as Byte, (n / 16777216 % 256) as Byte]
  }

  function Word(s: seq<Byte>, at: nat): (r: nat)
    requires at + 4 <= |s|
    ensures r < WORD_LIMIT
  {
    s[at] as nat + 256 * (s[at + 1] as nat) + 65536 * (s[at + 2] as nat) + 16777216 * (s[at + 3] as nat)
  }

  lemma WordMoves(s: seq<Byte>, i: nat, j: nat, at: nat)
    requires i + at + 4 <= j <= |s|
    ensures Word(s[i..j], at) == Word(s, i + at)
  {
  }

  /** A word at `at` is read as itself. */
  lemma WordValue(s: seq<Byte>, at: nat, n: nat)
    requires n < WORD_LIMIT && at + 4 <= |s| && s[at..at + 4] == Le(n)
    ensures Word(s, at) == n
  {
    var t := s[at..at + 4];
    assert s[at] == t[0] && s[at + 1] == t[1] && s[at + 2] == t[2] && s[at + 3] == t[3];
    FourDigits(n);
  }

  lemma FourDigits(n: int)
    requires 0 <= n < WORD_LIMIT
    ensures n % 256 + 256 * (n / 256 % 256) + 65536 * (n / 65536 % 256) + 16777216 * (n / 16777216 % 256) == n
  {
    var a, b, c := n / 256, n / 65536, n / 16777216;
    assert n == 256 * a + n % 256 && a == 256 * b + a % 256 && b == 256 * c + b % 256 && c < 256;
  }

  /** And written back it is the same bytes. */
  lemma WordBytes(s: seq<Byte>, at: nat)
    requires at + 4 <= |s|
    ensures Le(Word(s, at)) == s[at..at + 4]
  {
    DigitsOf(s[at] as int, s[at + 1] as int, s[at + 2] as int, s[at + 3] as int);
  }

  lemma DigitsOf(a: int, b: int, c: int, d: int)
    requires 0 <= a < 256 && 0 <= b < 256 && 0 <= c < 256 && 0 <= d < 256
    ensures var n := a + 256 * b + 65536 * c + 16777216 * d;
            n % 256 == a && n / 256 % 256 == b && n / 65536 % 256 == c && n / 16777216 % 256 == d
  {
    var n := a + 256 * b + 65536 * c + 16777216 * d;
    assert n / 256 == b + 256 * c + 65536 * d;
    assert n / 65536 == c + 256 * d;
    assert n / 16777216 == d;
  }

  // ----- the checksum -----

  /** Exclusive or, bit by bit from the lowest. */
  function XorBits(a: nat, b: nat): (r: nat)
  {
    if a == 0 || b == 0 then a + b else (if a % 2 == b % 2 then 0 else 1) + 2 * XorBits(a / 2, b / 2)
  }

  function Pow2(k: nat): (r: nat)
  {
    if k == 0 then 1 else 2 * Pow2(k - 1)
  }

  lemma {:induction false} XorFits(a: nat, b: nat, k: nat)
    requires a < Pow2(k) && b < Pow2(k)
    ensures XorBits(a, b) < Pow2(k)
  {
    if k > 0 { XorFits(a / 2, b / 2, k - 1); }
  }

  lemma Pow2Byte()
    ensures Pow2(8) == 256
  {
    assert Pow2(1) == 2 && Pow2(2) == 4 && Pow2(3) == 8 && Pow2(4) == 16 && Pow2(5) == 32 && Pow2(6) == 64 && Pow2(7) == 128;
  }

  function Xor(a: Byte, b: Byte): (r: Byte)
  {
    Pow2Byte();
    XorFits(a as nat, b as nat, 8);
    XorBits(a as nat, b as nat) as Byte
  }

  /** Every bit of the result tells whether the bits differ. */
  lemma XorBit(a: nat, b: nat)
    ensures XorBits(a, b) % 2 == (if a % 2 == b % 2 then 0 else 1) && XorBits(a, b) / 2 == XorBits(a / 2, b / 2)
  {
  }

  lemma {:induction false} XorBitsCancel(a: nat, b: nat, x: nat)
    requires XorBits(a, x) == XorBits(b, x) || XorBits(x, a) == XorBits(x, b)
    ensures a == b
    decreases a + b + x
  {
    XorBit(a, x);
    XorBit(b, x);
    XorBit(x, a);
    XorBit(x, b);
    if a + b + x > 0 { XorBitsCancel(a / 2, b / 2, x / 2); }
  }

  /** Two bytes that differ still differ after the same byte is added, on either side. */
  lemma XorKeepsApart(a: Byte, b: Byte, x: Byte)
    requires a != b
    ensures Xor(a, x) != Xor(b, x) && Xor(x, a) != Xor(x, b)
  {
    if Xor(a, x) == Xor(b, x) || Xor(x, a) == Xor(x, b) {
      XorBitsCancel(a as nat, b as nat, x as nat);
    }
  }

  const CHECKSUM_MAGIC: Byte := 0xef

  /** The checksum of the bytes from i to j. */
  function Checksum(s: seq<Byte>, i: nat, j: nat, state: Byte): (r: Byte)
    requires i <= j <= |s|
  {
    if i == j then state else Xor(Checksum(s, i, j - 1, state), s[j - 1])
  }

  lemma {:induction false} ChecksumContinues(s: seq<Byte>, i: nat, j: nat, k: nat, state: Byte)
    requires i <= j <= k <= |s|
    ensures Checksum(s, i, k, state) == Checksum(s, j, k, Checksum(s, i, j, state))
  {
    if j < k { ChecksumContinues(s, i, j, k - 1, state); }
  }

  /** It depends on those bytes only. */
  lemma {:induction false} ChecksumMoves(s: seq<Byte>, i: nat, t: seq<Byte>, j: nat, n: nat, state: Byte)
    requires i + n <= |s| && j + n <= |t| && forall k :: i <= k < i + n ==> s[k] == t[k - i + j]
    ensures Checksum(s, i, i + n, state) == Checksum(t, j, j + n, state)
  {
    if n > 0 {
      ChecksumMoves(s, i, t, j, n - 1, state);
    }
  }

  /** Different states stay different. */
  lemma {:induction false} ChecksumKeepsApart(s: seq<Byte>, n: nat, c: Byte, d: Byte)
    requires c != d && n <= |s|
    ensures Checksum(s, 0, n, c) != Checksum(s, 0, n, d)
  {
    if n > 0 {
      ChecksumKeepsApart(s, n - 1, c, d);
      XorKeepsApart(Checksum(s, 0, n - 1, c), Checksum(s, 0, n - 1, d), s[n - 1]);
    }
  }

  /** One changed byte changes the checksum. */
  lemma {:induction false} ChecksumSeesChange(s: seq<Byte>, n: nat, j: nat, b: Byte, state: Byte)
    requires j < n <= |s| && s[j] != b
    ensures Checksum(s[j := b], 0, n, state) != Checksum(s, 0, n, state)
  {
    var t := s[j := b];
    if j == n - 1 {
      ChecksumMoves(t, 0, s, 0, n - 1, state);
      XorKeepsApart(s[j], b, Checksum(s, 0, n - 1, state));
    } else {
      ChecksumSeesChange(s, n - 1, j, b, state);
      XorKeepsApart(Checksum(t, 0, n - 1, state), Checksum(s, 0, n - 1, state), s[n - 1]);
    }
  }

  method ComputeChecksum(data: seq<Byte>, state: Byte) returns (r: Byte)
    ensures r == Checksum(data, 0, |data|, state)
  {
    r := state;
    for i := 0 to |data|
      invariant r == Checksum(data, 0, i, state)
    {
      r := Xor(r, data[i]);
    }
  }

  // ----- the format -----

  const IMAGE_MAGIC: Byte := 0xe9

  datatype Segment = Segment(address: nat, data: seq<Byte>)

  datatype Image = Image(flashMode: Byte, flashSizeFreq: Byte, entry: nat, segments: seq<Segment>)

  /** What the loader takes for a plausible segment. */
  predicate Plausible(address: nat, size: nat)
  {
    0x3ffe_0000 <= address <= 0x4020_0000 && size <= 65536
  }

  predicate Legal(img: Image)
  {
    && |img.segments| <= 16 && img.entry < WORD_LIMIT
    && forall i :: 0 <= i < |img.segments| ==> Plausible(img.segments[i].address, |img.segments[i].data|)
  }

  /** The numbers fit into the fields that they are packed into. */
  predicate Packs(img: Image)
  {
    && |img.segments| < 256 && img.entry < WORD_LIMIT
    && forall i :: 0 <= i < |img.segments| ==> img.segments[i].address < WORD_LIMIT && |img.segments[i].data| < WORD_LIMIT
  }

  function Header(img: Image): (r: seq<Byte>)
    requires |img.segments| < 256
    ensures |r| == 8
  {
    [IMAGE_MAGIC, |img.segments| as Byte, img.flashMode, img.flashSizeFreq] + Le(img.entry)
  }

  function SegmentBytes(s: Segment): (r: seq<Byte>)
    ensures |r| == 8 + |s.data|
  {
    Le(s.address) + Le(|s.data|) + s.data
  }

  /** The bytes of the first n segments. */
  function SegmentsBytes(ss: seq<Segment>, n: nat): (r: seq<Byte>)
    requires n <= |ss|
  {
    if n == 0 then [] else SegmentsBytes(ss, n - 1) + SegmentBytes(ss[n - 1])
  }

  /** The checksum of their data. */
  function Sum(ss: seq<Segment>, n: nat): (r: Byte)
    requires n <= |ss|
  {
    if n == 0 then CHECKSUM_MAGIC else Checksum(ss[n - 1].data, 0, |ss[n - 1].data|, Sum(ss, n - 1))
  }

  function Zeros(n: nat): (r: seq<Byte>) { seq(n, _ => 0) }

  /** How far it is from `n` to the last place of its block of 16. */
  function Padding(n: nat): (r: nat) { 15 - n % 16 }

  /** The bytes of an image, with `sum` in the place of the checksum. */
  function Layout(img: Image, sum: Byte): (r: seq<Byte>)
    requires |img.segments| < 256
  {
    var body := Header(img) + SegmentsBytes(img.segments, |img.segments|);
    body + Zeros(Padding(|body|)) + [sum]
  }

  /** The file's size is a multiple of 16. */
  lemma LayoutFillsBlocks(img: Image, sum: Byte)
    requires |img.segments| < 256
    ensures |Layout(img, sum)| % 16 == 0 && |Layout(img, sum)| >= 16
  {
    var n := 8 + |SegmentsBytes(img.segments, |img.segments|)|;
    assert |Layout(img, sum)| == n + (15 - n % 16) + 1 == n - n % 16 + 16;
  }

  /** Where segment i starts. */
  function Offset(ss: seq<Segment>, i: nat): (r: nat)
    requires i <= |ss|
  {
    if i == 0 then 8 else Offset(ss, i - 1) + 8 + |ss[i - 1].data|
  }

  lemma {:induction false} OffsetSkips(ss: seq<Segment>, i: nat)
    requires i <= |ss|
    ensures Offset(ss, i) == 8 + |SegmentsBytes(ss, i)|
  {
    if i > 0 { OffsetSkips(ss, i - 1); }
  }

  lemma {:induction false} SegmentIn(ss: seq<Segment>, n: nat, i: nat)
    requires i < n <= |ss|
    ensures var o, all := Offset(ss, i) - 8, SegmentsBytes(ss, n);
            0 <= o && o + 8 + |ss[i].data| <= |all| && all[o..o + 8 + |ss[i].data|] == SegmentBytes(ss[i])
  {
    OffsetSkips(ss, i);
    if i < n - 1 { SegmentIn(ss, n - 1, i); }
  }

  /** Segment i lies at its offset. */
  lemma SegmentAt(img: Image, sum: Byte, i: nat)
    requires |img.segments| < 256 && i < |img.segments|
    ensures var o, s := Offset(img.segments, i), img.segments[i];
            && o + 8 + |s.data| < |Layout(img, sum)|
            && Layout(img, sum)[o..o + 8 + |s.data|] == SegmentBytes(s)
  {
    var ss := img.segments;
    var h, all, o := Header(img), SegmentsBytes(ss, |ss|), Offset(ss, i);
    SegmentIn(ss, |ss|, i);
    Surrounded(h, all, Zeros(Padding(|h + all|)), [sum], SegmentBytes(ss[i]), o, o + 8 + |ss[i].data|);
  }

  /** What lies in `a` still lies there with `h` in front and more behind. */
  lemma Surrounded(h: seq<Byte>, a: seq<Byte>, z: seq<Byte>, t: seq<Byte>, part: seq<Byte>, i: nat, j: nat)
    requires |h| <= i <= j <= |h| + |a| && a[i - |h|..j - |h|] == part
    ensures (h + a + z + t)[i..j] == part
  {
    assert (h + a + z + t)[i..j] == (h + a)[i..j];
    assert (h + a)[i..j] == a[i - |h|..j - |h|];
  }

  // ----- files -----

  /** A file opened in binary mode, with its position. */
  class File {
    var bytes: seq<Byte>
    var pos: nat

    constructor (bytes: seq<Byte>)
      ensures this.bytes == bytes && pos == 0
    {
      this.bytes, pos := bytes, 0;
    }

    /** Writing past the end fills the gap with zeros. */
    method Write(data: seq<Byte>)
      modifies this
      ensures pos == old(pos) + |data|
      ensures bytes == Written(old(bytes), old(pos), data)
    {
      bytes := Written(bytes, pos, data);
      pos := pos + |data|;
    }

    /** Reading at the end returns less. */
    method Read(n: nat) returns (data: seq<Byte>)
      modifies this`pos
      ensures data == (if old(pos) >= |bytes| then [] else if old(pos) + n <= |bytes| then bytes[old(pos)..old(pos) + n] else bytes[old(pos)..])
      ensures pos == old(pos) + |data|
    {
      data := if pos >= |bytes| then [] else if pos + n <= |bytes| then bytes[pos..pos + n] else bytes[pos..];
      pos := pos + |data|;
    }

    /** Moves to the last place of the block of 16. */
    method Align()
      modifies this`pos
      ensures pos == old(pos) + Padding(old(pos))
    {
      var align := 16 - 1 - pos % 16;
      pos := pos + align;
    }
  }

  function Written(bytes: seq<Byte>, pos: nat, data: seq<Byte>): (r: seq<Byte>)
  {
    var full := if pos > |bytes| then bytes + Zeros(pos - |bytes|) else bytes;
    full[..pos] + data + if pos + |data| < |full| then full[pos + |data|..] else []
  }

  // ----- saving -----

  /** Saves an image: header, segments and, at the end of a block, the checksum. */
  method Save(img: Image, f: File)
    requires Packs(img) && f.bytes == [] && f.pos == 0
    modifies f
    ensures f.bytes == Layout(img, Sum(img.segments, |img.segments|))
  {
    WrittenAtEnd([], 0, Header(img));
    f.Write(Header(img));
    assert f.bytes == Header(img);
    var checksum := SaveSegments(img.segments, f);
    AppendChecksum(checksum, f);
  }

  method SaveSegments(ss: seq<Segment>, f: File) returns (checksum: Byte)
    requires f.pos == |f.bytes|
    modifies f
    ensures f.bytes == old(f.bytes) + SegmentsBytes(ss, |ss|) && f.pos == |f.bytes|
    ensures checksum == Sum(ss, |ss|)
  {
    ghost var before := f.bytes;
    checksum := CHECKSUM_MAGIC;
    for i := 0 to |ss|
      invariant f.bytes == before + SegmentsBytes(ss, i) && f.pos == |f.bytes|
      invariant checksum == Sum(ss, i)
    {
      Associates(before, SegmentsBytes(ss, i), SegmentBytes(ss[i]));
      checksum := SaveSegment(ss[i], checksum, f);
    }
  }

  lemma Associates(a: seq<Byte>, b: seq<Byte>, c: seq<Byte>)
    ensures (a + b) + c == a + (b + c)
  {
  }

  method AppendChecksum(checksum: Byte, f: File)
    requires f.pos == |f.bytes|
    modifies f
    ensures f.bytes == old(f.bytes) + Zeros(Padding(|old(f.bytes)|)) + [checksum]
  {
    f.Align();
    WrittenAtEnd(f.bytes, f.pos, [checksum]);
    f.Write([checksum]);
  }

  lemma WrittenAtEnd(bytes: seq<Byte>, pos: nat, data: seq<Byte>)
    requires pos >= |bytes|
    ensures Written(bytes, pos, data) == bytes + Zeros(pos - |bytes|) + data
  {
  }

  method SaveSegment(s: Segment, checksum: Byte, f: File) returns (r: Byte)
    requires f.pos == |f.bytes|
    modifies f
    ensures f.bytes == old(f.bytes) + SegmentBytes(s) && f.pos == |f.bytes|
    ensures r == Checksum(s.data, 0, |s.data|, checksum)
  {
    WrittenAtEnd(f.bytes, f.pos, Le(s.address) + Le(|s.data|));
    f.Write(Le(s.address) + Le(|s.data|));
    WrittenAtEnd(f.bytes, f.pos, s.data);
    f.Write(s.data);
    r := ComputeChecksum(s.data, checksum);
  }

  // ----- loading -----

  datatype Error = InvalidImage | SuspiciousSegment | EndOfFile

  datatype Result<T> = Ok(value: T) | Err(error: Error)

  /** The segment at `pos`. */
  function SegmentOf(bytes: seq<Byte>, pos: nat): (r: Result<Segment>)
  {
    if |bytes| < pos + 8 then Err(EndOfFile)
    else
      var address, size := Word(bytes, pos), Word(bytes, pos + 4);
      if !Plausible(address, size) then Err(SuspiciousSegment)
      else if |bytes| < pos + 8 + size then Err(EndOfFile)
      else Ok(Segment(address, bytes[pos + 8..pos + 8 + size]))
  }

  datatype Read = Read(segments: seq<Segment>, pos: nat)

  /** The first n segments, and where they end. */
  function SegmentsOf(bytes: seq<Byte>, n: nat): (r: Result<Read>)
  {
    if n == 0 then Ok(Read([], 8))
    else match SegmentsOf(bytes, n - 1)
      case Err(e) => Err(e)
      case Ok(before) =>
        match SegmentOf(bytes, before.pos)
        case Err(e) => Err(e)
        case Ok(s) => Ok(Read(before.segments + [s], before.pos + 8 + |s.data|))
  }

  datatype Loaded = Loaded(img: Image, sum: Byte)

  function LoadedFrom(bytes: seq<Byte>): (r: Result<Loaded>)
  {
    if |bytes| < 8 then Err(EndOfFile)
    else if bytes[0] != IMAGE_MAGIC || bytes[1] > 16 then Err(InvalidImage)
    else match SegmentsOf(bytes, bytes[1] as nat)
      case Err(e) => Err(e)
      case Ok(all) =>
        var at := all.pos + Padding(all.pos);
        if |bytes| <= at then Err(EndOfFile)
        else Ok(Loaded(Image(bytes[2], bytes[3], Word(bytes, 4), all.segments), bytes[at]))
  }

  method LoadSegment(f: File) returns (r: Result<Segment>)
    modifies f`pos
    ensures r == SegmentOf(f.bytes, old(f.pos))
    ensures r.Ok? ==> f.pos == old(f.pos) + 8 + |r.value.data|
  {
    var head := f.Read(8);
    if |head| < 8 {
      return Err(EndOfFile);
    }
    WordMoves(f.bytes, old(f.pos), old(f.pos) + 8, 0);
    WordMoves(f.bytes, old(f.pos), old(f.pos) + 8, 4);
    var address, size := Word(head, 0), Word(head, 4);
    if address > 0x4020_0000 || address < 0x3ffe_0000 || size > 65536 {
      return Err(SuspiciousSegment);
    }
    var data := f.Read(size);
    if |data| < size {
      return Err(EndOfFile);
    }
    r := Ok(Segment(address, data));
  }

  lemma {:induction false} ErrorStays(bytes: seq<Byte>, i: nat, n: nat)
    requires i <= n && SegmentsOf(bytes, i).Err?
    ensures SegmentsOf(bytes, n) == Err(SegmentsOf(bytes, i).error)
    decreases n
  {
    if i < n { ErrorStays(bytes, i, n - 1); }
  }

  method LoadSegments(f: File, n: nat) returns (r: Result<seq<Segment>>)
    requires f.pos == 8
    modifies f`pos
    ensures var all := SegmentsOf(f.bytes, n);
            if all.Ok? then r == Ok(all.value.segments) && f.pos == all.value.pos else r == Err(all.error)
  {
    var segments: seq<Segment> := [];
    for i := 0 to n
      invariant SegmentsOf(f.bytes, i) == Ok(Read(segments, f.pos))
    {
      var s := LoadSegment(f);
      if s.Err? {
        ErrorStays(f.bytes, i + 1, n);
        return Err(s.error);
      }
      segments := segments + [s.value];
    }
    r := Ok(segments);
  }

  method Load(f: File) returns (r: Result<Loaded>)
    requires f.pos == 0
    modifies f`pos
    ensures r == LoadedFrom(f.bytes)
  {
    var head := f.Read(8);
    if |head| < 8 {
      return Err(EndOfFile);
    }
    if head[0] != IMAGE_MAGIC || head[1] > 16 {
      return Err(InvalidImage);
    }
    assert head == f.bytes[..8];
    var segments := LoadSegments(f, head[1] as nat);
    if segments.Err? {
      return Err(segments.error);
    }
    f.Align();
    var sum := f.Read(1);
    if sum == [] {
      return Err(EndOfFile);
    }
    r := Ok(Loaded(Image(head[2], head[3], Word(head, 4), segments.value), sum[0]));
  }

  // ----- round trips -----

  lemma Within(bytes: seq<Byte>, pos: nat, n: nat, a: nat, b: nat)
    requires a <= b <= n && pos + n <= |bytes|
    ensures bytes[pos..pos + n][a..b] == bytes[pos + a..pos + b]
  {
    var t := bytes[pos..pos + n];
    assert forall i :: 0 <= i < b - a ==> t[a..b][i] == bytes[pos + a..pos + b][i];
  }

  lemma SegmentReads(bytes: seq<Byte>, pos: nat, s: Segment)
    requires Plausible(s.address, |s.data|) && pos + 8 + |s.data| <= |bytes|
    requires bytes[pos..pos + 8 + |s.data|] == SegmentBytes(s)
    ensures Word(bytes, pos) == s.address && Word(bytes, pos + 4) == |s.data|
    ensures bytes[pos + 8..pos + 8 + |s.data|] == s.data
    ensures SegmentOf(bytes, pos) == Ok(s)
  {
    var t := SegmentBytes(s);
    assert t[..4] == Le(s.address) && t[4..8] == Le(|s.data|) && t[8..] == s.data;
    Within(bytes, pos, |t|, 0, 4);
    Within(bytes, pos, |t|, 4, 8);
    Within(bytes, pos, |t|, 8, |t|);
    assert t[0..4] == t[..4] && t[8..|t|] == t[8..];
    WordValue(bytes, pos, s.address);
    WordValue(bytes, pos + 4, |s.data|);
  }

  /** Segment i of an image that starts at `base` lies where it should. */
  ghost predicate Lies(bytes: seq<Byte>, base: nat, ss: seq<Segment>, i: nat)
    requires i < |ss|
  {
    var at := base + Offset(ss, i);
    var end := at + 8 + |ss[i].data|;
    end <= |bytes| && bytes[at..end] == SegmentBytes(ss[i])
  }

  lemma AllLie(img: Image, sum: Byte, bytes: seq<Byte>, base: nat)
    requires |img.segments| < 256 && base + |Layout(img, sum)| <= |bytes|
    requires bytes[base..base + |Layout(img, sum)|] == Layout(img, sum)
    ensures forall i {:trigger Lies(bytes, base, img.segments, i)} :: 0 <= i < |img.segments| ==> Lies(bytes, base, img.segments, i)
  {
    var ss, l := img.segments, Layout(img, sum);
    forall i | 0 <= i < |ss| ensures Lies(bytes, base, ss, i) {
      SegmentAt(img, sum, i);
      Within(bytes, base, |l|, Offset(ss, i), Offset(ss, i) + 8 + |ss[i].data|);
    }
  }

  ghost predicate ReadsAt(bytes: seq<Byte>, ss: seq<Segment>, i: nat)
    requires i < |ss|
  {
    SegmentOf(bytes, Offset(ss, i)) == Ok(ss[i])
  }

  lemma {:induction false} SegmentsRead(bytes: seq<Byte>, ss: seq<Segment>, n: nat)
    requires n <= |ss| && forall i {:trigger ReadsAt(bytes, ss, i)} :: 0 <= i < |ss| ==> ReadsAt(bytes, ss, i)
    ensures SegmentsOf(bytes, n) == Ok(Read(ss[..n], Offset(ss, n)))
  {
    if n == 0 {
      assert ss[..0] == [] && Offset(ss, 0) == 8;
    } else {
      SegmentsRead(bytes, ss, n - 1);
      assert ReadsAt(bytes, ss, n - 1);
      assert ss[..n] == ss[..n - 1] + [ss[n - 1]];
      NextSegment(bytes, n, Read(ss[..n - 1], Offset(ss, n - 1)), ss[n - 1], Read(ss[..n], Offset(ss, n)));
    }
  }

  lemma NextSegment(bytes: seq<Byte>, n: nat, before: Read, s: Segment, after: Read)
    requires n > 0 && SegmentsOf(bytes, n - 1) == Ok(before) && SegmentOf(bytes, before.pos) == Ok(s)
    requires after == Read(before.segments + [s], before.pos + 8 + |s.data|)
    ensures SegmentsOf(bytes, n) == Ok(after)
  {
  }

  /** A saved image reloads to itself. */
  lemma SaveThenLoad(img: Image, sum: Byte)
    requires Legal(img)
    ensures LoadedFrom(Layout(img, sum)) == Ok(Loaded(img, sum))
  {
    var ss, bytes := img.segments, Layout(img, sum);
    assert bytes[0..|bytes|] == bytes;
    AllLie(img, sum, bytes, 0);
    forall i | 0 <= i < |ss| ensures ReadsAt(bytes, ss, i) {
      assert Lies(bytes, 0, ss, i);
      SegmentReads(bytes, Offset(ss, i), ss[i]);
    }
    SegmentsRead(bytes, ss, |ss|);
    assert ss[..|ss|] == ss;
    LayoutParts(img, sum);
    assert bytes[4..8] == bytes[..8][4..8] == Le(img.entry);
    WordValue(bytes, 4, img.entry);
  }

  /** The checksum is the last byte of the block that the segments end in. */
  lemma LayoutParts(img: Image, sum: Byte)
    requires |img.segments| < 256
    ensures var bytes, n := Layout(img, sum), Offset(img.segments, |img.segments|);
            && bytes[..8] == Header(img)
            && n + Padding(n) == |bytes| - 1 && bytes[n + Padding(n)] == sum
  {
    OffsetSkips(img.segments, |img.segments|);
  }

  lemma SegmentWrites(bytes: seq<Byte>, pos: nat)
    requires SegmentOf(bytes, pos).Ok?
    ensures var s := SegmentOf(bytes, pos).value;
            pos + 8 + |s.data| <= |bytes| && SegmentBytes(s) == bytes[pos..pos + 8 + |s.data|] && Plausible(s.address, |s.data|)
  {
    var s := SegmentOf(bytes, pos).value;
    WordBytes(bytes, pos);
    WordBytes(bytes, pos + 4);
    assert bytes[pos..pos + 4] + bytes[pos + 4..pos + 8] + bytes[pos + 8..pos + 8 + |s.data|] == bytes[pos..pos + 8 + |s.data|];
  }

  lemma {:induction false} SamePrefix(a: seq<Segment>, b: seq<Segment>, n: nat)
    requires n <= |a| && n <= |b| && forall i :: 0 <= i < n ==> a[i] == b[i]
    ensures SegmentsBytes(a, n) == SegmentsBytes(b, n) && Offset(a, n) == Offset(b, n)
  {
    if n > 0 { SamePrefix(a, b, n - 1); }
  }

  /** These segments are what the bytes up to `pos` say. */
  ghost predicate Consistent(bytes: seq<Byte>, r: Read)
  {
    && 8 <= r.pos <= |bytes| && r.pos == Offset(r.segments, |r.segments|)
    && SegmentsBytes(r.segments, |r.segments|) == bytes[8..r.pos]
    && forall i :: 0 <= i < |r.segments| ==> Plausible(r.segments[i].address, |r.segments[i].data|)
  }

  lemma ConsistentStep(bytes: seq<Byte>, r: Read, s: Segment)
    requires Consistent(bytes, r) && SegmentOf(bytes, r.pos) == Ok(s)
    ensures Consistent(bytes, Read(r.segments + [s], r.pos + 8 + |s.data|))
  {
    var end := r.pos + 8 + |s.data|;
    SegmentWrites(bytes, r.pos);
    SamePrefix(r.segments, r.segments + [s], |r.segments|);
    assert bytes[8..r.pos] + bytes[r.pos..end] == bytes[8..end];
  }

  lemma {:induction false} SegmentsWrite(bytes: seq<Byte>, n: nat)
    requires SegmentsOf(bytes, n).Ok? && |bytes| >= 8
    ensures Consistent(bytes, SegmentsOf(bytes, n).value) && |SegmentsOf(bytes, n).value.segments| == n
  {
    if n > 0 {
      SegmentsWrite(bytes, n - 1);
      var before := SegmentsOf(bytes, n - 1).value;
      ConsistentStep(bytes, before, SegmentOf(bytes, before.pos).value);
    }
  }

  /** And whatever loads is a legal image, whose header and segments save to the bytes that
      they were loaded from. */
  lemma LoadThenSave(bytes: seq<Byte>)
    requires LoadedFrom(bytes).Ok?
    ensures var img := LoadedFrom(bytes).value.img; var n := Offset(img.segments, |img.segments|);
            Legal(img) && n <= |bytes| && Header(img) + SegmentsBytes(img.segments, |img.segments|) == bytes[..n]
  {
    var img := LoadedFrom(bytes).value.img;
    var ss := img.segments;
    SegmentsWrite(bytes, bytes[1] as nat);
    WordBytes(bytes, 4);
    assert Header(img) == bytes[..8];
    assert bytes[..8] + bytes[8..Offset(ss, |ss|)] == bytes[..Offset(ss, |ss|)];
  }
}
