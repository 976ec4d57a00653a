/**
 NOR flash as the storage code sees it: programming can only clear bits, erasing
 sets a whole sector to 0xff, and a power cut can fall after any page program or
 sector erase.  The chip therefore keeps, as a ghost, every image that a power cut
 could have left behind.
 */
module Flash {

  type Byte = x: int | 0 <= x < 256

  const ERASED: Byte := 0xff
  const SECTOR := 4096
  const PAGE := 256

  // ----- bitwise and -----

  function BitAnd(a: nat, b: nat): (r: nat)
    ensures r <= a && r <= b
  {
    if a == 0 || b == 0 then 0
    else 2 * BitAnd(a / 2, b / 2) + (if a % 2 == 1 && b % 2 == 1 then 1 else 0)
  }

  /** What a cell holding `a` holds after `b` is programmed into it. */
  function And(a: Byte, b: Byte): (r: Byte)
  {
    BitAnd(a, b)
  }

  lemma {:induction false} BitAndOnes(ones: nat, b: nat)
    requires ones in {0, 1, 3, 7, 15, 31, 63, 127, 255}
    requires b <= ones
    ensures BitAnd(ones, b) == b
  {
    if 0 < b { BitAndOnes(ones / 2, b / 2); }
  }

  lemma {:induction false} BitAndSame(b: nat)
    ensures BitAnd(b, b) == b
  {
    if 0 < b { BitAndSame(b / 2); }
  }

  function Weight(k: nat): (r: nat)
  {
    if k == 0 then 1 else 2 * Weight(k - 1)
  }

  predicate HasBit(b: nat, k: nat)
  {
    if k == 0 then b % 2 == 1 else HasBit(b / 2, k - 1)
  }

  /** A bit is set exactly if it is set in both. */
  lemma {:induction false} BitsOfAnd(a: nat, b: nat, k: nat)
    ensures HasBit(BitAnd(a, b), k) <==> HasBit(a, k) && HasBit(b, k)
    decreases k
  {
    if a == 0 {
      NoBits(k);
    } else if b == 0 {
      NoBits(k);
    } else if k > 0 {
      assert BitAnd(a, b) / 2 == BitAnd(a / 2, b / 2);
      BitsOfAnd(a / 2, b / 2, k - 1);
    }
  }

  lemma {:induction false} NoBits(k: nat)
    ensures !HasBit(0, k)
  {
    if k > 0 { NoBits(k - 1); }
  }

  lemma {:induction false} BitAndClear(b: nat, k: nat)
    requires HasBit(b, k)
    ensures Weight(k) <= b && BitAnd(b, b - Weight(k)) == b - Weight(k)
  {
    if k == 0 { BitAndSame(b / 2); } else { BitAndClear(b / 2, k - 1); }
  }

  lemma BitSix(b: nat)
    ensures HasBit(b, 6) <==> b / 64 % 2 == 1
  {
    assert HasBit(b, 2) == HasBit(b / 4, 0);
    assert HasBit(b, 4) == HasBit(b / 4, 2) == HasBit(b / 16, 0);
    assert HasBit(b, 6) == HasBit(b / 4, 4) == HasBit(b / 16, 2) == HasBit(b / 64, 0);
  }

  /** Clearing bit 6 or bit 7 of a cell is something flash can do. */
  lemma AndClears(b: Byte)
    ensures b / 64 % 2 == 1 ==> And(b, b - 64) == b - 64
    ensures b / 128 % 2 == 1 ==> And(b, b - 128) == b - 128
  {
    BitSix(b);
    BitSix(b / 2);
    assert Weight(2) == 4 && Weight(4) == 16 && Weight(6) == 64 && Weight(7) == 128;
    if b / 64 % 2 == 1 { BitAndClear(b, 6); }
    if b / 128 % 2 == 1 { BitAndClear(b, 7); }
  }

  // ----- images -----

  /** The next multiple of the word size. */
  function RoundUp(n: nat): (r: nat)
    ensures n <= r < n + 4
  {
    if n == 0 then 0 else if n <= 4 then 4 else 4 + RoundUp(n - 4)
  }

  lemma {:induction false} RoundUpAligned(n: nat)
    ensures RoundUp(n) % 4 == 0 && RoundUp(n) == (n + 3) / 4 * 4
  {
    if n > 4 { RoundUpAligned(n - 4); }
  }

  /** The image after programming `data` at `addr`. */
  function Program(mem: seq<Byte>, addr: nat, data: seq<Byte>): (r: seq<Byte>)
    requires addr + |data| <= |mem|
    ensures |r| == |mem|
    ensures forall i :: 0 <= i < |mem| && !(addr <= i < addr + |data|) ==> r[i] == mem[i]
    decreases |data|
  {
    if data == [] then mem
    else
      var last := |data| - 1;
      Program(mem, addr, data[..last])[addr + last := And(mem[addr + last], data[last])]
  }

  lemma {:induction false} ProgramInside(mem: seq<Byte>, addr: nat, data: seq<Byte>)
    requires addr + |data| <= |mem|
    ensures forall i :: addr <= i < addr + |data| ==> Program(mem, addr, data)[i] == And(mem[i], data[i - addr])
    decreases |data|
  {
    if data != [] { ProgramInside(mem, addr, data[..|data| - 1]); }
  }

  /** Programming page after page is programming the whole. */
  lemma {:induction false} ProgramMore(mem: seq<Byte>, addr: nat, whole: seq<Byte>, m: nat, n: nat)
    requires addr + |whole| <= |mem| && m <= n <= |whole|
    ensures Program(Program(mem, addr, whole[..m]), addr + m, whole[m..n]) == Program(mem, addr, whole[..n])
    ensures AgreeOutside(Program(mem, addr, whole[..n]), mem, addr, addr + |whole|)
    decreases n
  {
    if m < n {
      ProgramMore(mem, addr, whole, m, n - 1);
      assert whole[m..n][..n - 1 - m] == whole[m..n - 1] && whole[..n][..n - 1] == whole[..n - 1];
    }
  }

  /** The image after erasing the sector that starts at `addr`. */
  function Wipe(mem: seq<Byte>, addr: nat): (r: seq<Byte>)
    requires addr + SECTOR <= |mem|
    ensures |r| == |mem|
    ensures forall i :: 0 <= i < |mem| ==> r[i] == if addr <= i < addr + SECTOR then ERASED else mem[i]
  {
    seq(|mem|, i requires 0 <= i < |mem| => if addr <= i < addr + SECTOR then ERASED else mem[i])
  }

  /** `s` and `t` agree on the half-open range. */
  ghost predicate Agree(s: seq<Byte>, t: seq<Byte>, from: nat, to: nat)
  {
    |s| == |t| && to <= |s| && forall i :: from <= i < to ==> s[i] == t[i]
  }

  /** `s` and `t` agree everywhere except possibly on the half-open range. */
  ghost predicate AgreeOutside(s: seq<Byte>, t: seq<Byte>, from: nat, to: nat)
  {
    |s| == |t| && forall i :: 0 <= i < |s| && !(from <= i < to) ==> s[i] == t[i]
  }

  ghost predicate AllErased(s: seq<Byte>, from: nat, to: nat)
  {
    to <= |s| && forall i :: from <= i < to ==> s[i] == ERASED
  }

  /** Programming `data` at `addr` leaves exactly `data` there: only bits are cleared. */
  ghost predicate Programmable(mem: seq<Byte>, addr: nat, data: seq<Byte>)
  {
    addr + |data| <= |mem| && forall i :: 0 <= i < |data| ==> And(mem[addr + i], data[i]) == data[i]
  }

  lemma ErasedIsProgrammable(mem: seq<Byte>, addr: nat, data: seq<Byte>)
    requires AllErased(mem, addr, addr + |data|)
    ensures Programmable(mem, addr, data)
  {
    forall i | 0 <= i < |data| ensures And(mem[addr + i], data[i]) == data[i] {
      assert mem[addr + i] == ERASED;
      BitAndOnes(255, data[i]);
    }
  }

  class Chip {
    var mem: seq<Byte>
    ghost var cuts: set<seq<Byte>>

    constructor (image: seq<Byte>)
      ensures mem == image && cuts == {image}
    {
      mem := image;
      cuts := {image};
    }

    method PageProgram(addr: nat, data: seq<Byte>)
      requires addr + |data| <= |mem|
      modifies this
      ensures mem == Program(old(mem), addr, data)
      ensures cuts == old(cuts) + {mem}
    {
      mem := Program(mem, addr, data);
      cuts := cuts + {mem};
    }

    method EraseSector(sector: nat)
      requires sector * SECTOR + SECTOR <= |mem|
      modifies this
      ensures mem == Wipe(old(mem), sector * SECTOR)
      ensures cuts == old(cuts) + {mem}
    {
      mem := Wipe(mem, sector * SECTOR);
      cuts := cuts + {mem};
    }

    /** Whatever happens to follow a buffer in RAM. */
    method TrailingBytes(n: nat) returns (tail: seq<Byte>)
      ensures |tail| == n
    {
      tail := [];
      while |tail| < n
        invariant |tail| <= n
      {
        var b: Byte :| true;
        tail := tail + [b];
      }
    }

    /** Programs bytes `pos` to `next` of `data`, when those before `pos` are done. */
    method NextPage(addr: nat, data: seq<Byte>, pos: nat, next: nat, ghost mem0: seq<Byte>)
      requires addr + |data| <= |mem0| && pos <= next <= |data| && mem == Program(mem0, addr, data[..pos])
      modifies this
      ensures mem == Program(mem0, addr, data[..next]) && cuts == old(cuts) + {mem}
      ensures AgreeOutside(mem, mem0, addr, addr + |data|)
      ensures pos == next ==> mem == old(mem)
    {
      ProgramMore(mem0, addr, data, pos, next);
      PageProgram(addr + pos, data[pos..next]);
    }

    /** Programs `data` from a page boundary on: whole pages, then what is left. */
    method ProgramFromBoundary(addr: nat, data: seq<Byte>)
      requires addr + |data| <= |mem|
      modifies this
      ensures mem == Program(old(mem), addr, data)
      ensures old(cuts) <= cuts && mem in cuts
      ensures forall s :: s in cuts ==> s in old(cuts) || AgreeOutside(s, old(mem), addr, addr + |data|)
      ensures data == [] && old(mem) in old(cuts) ==> cuts == old(cuts)
    {
      assert data[..|data|] == data;
      var pos := 0;
      while |data| - pos >= PAGE
        invariant 0 <= pos <= |data|
        invariant mem == Program(old(mem), addr, data[..pos])
        invariant old(cuts) <= cuts && (data == [] ==> cuts == old(cuts))
        invariant forall s :: s in cuts ==> s in old(cuts) || AgreeOutside(s, old(mem), addr, addr + |data|)
      {
        NextPage(addr, data, pos, pos + PAGE, old(mem));
        pos := pos + PAGE;
      }
      NextPage(addr, data, pos, |data|, old(mem));
    }

    /** Programs `whole` page by page. */
    method ProgramPages(addr: nat, whole: seq<Byte>)
      requires addr + |whole| <= |mem|
      modifies this
      ensures mem == Program(old(mem), addr, whole)
      ensures old(cuts) <= cuts && mem in cuts
      ensures forall s :: s in cuts ==> s in old(cuts) || AgreeOutside(s, old(mem), addr, addr + |whole|)
      ensures addr % PAGE + |whole| <= PAGE ==> cuts == old(cuts) + {mem}
    {
      var first := PAGE - addr % PAGE;
      if |whole| < first {
        PageProgram(addr, whole);
        return;
      }
      PageProgram(addr, whole[..first]);
      ProgramMore(old(mem), addr, whole, first, |whole|);
      assert whole[..|whole|] == whole;
      ProgramFromBoundary(addr + first, whole[first..|whole|]);
    }

    /** Programs `data`.  The length is first rounded up to whole words, so up to three
        bytes that follow the buffer in RAM go out too. */
    method Write(addr: nat, data: seq<Byte>)
      requires addr + RoundUp(|data|) <= |mem|
      modifies this
      ensures AgreeOutside(mem, old(mem), addr, addr + RoundUp(|data|))
      ensures forall i :: addr <= i < addr + |data| ==> mem[i] == And(old(mem)[i], data[i - addr])
      ensures old(cuts) <= cuts && mem in cuts
      ensures forall s :: s in cuts ==> s in old(cuts) || AgreeOutside(s, old(mem), addr, addr + RoundUp(|data|))
      ensures addr % PAGE + RoundUp(|data|) <= PAGE ==> cuts == old(cuts) + {mem}
    {
      var tail := TrailingBytes(RoundUp(|data|) - |data|);
      ProgramInside(mem, addr, data + tail);
      ProgramPages(addr, data + tail);
    }
  }
}
