/**
 SLIP framing on the serial line (RFC 1055): the writer's two replacements and the reader,
 which takes the bytes in whatever chunks the port delivers.
 */
module Slip {
  import opened Bytes
  import opened Options

  type Packet = seq<Byte>

  const END: Byte := 0xc0
  const ESC: Byte := 0xdb
  const ESC_END: Byte := 0xdc
  const ESC_ESC: Byte := 0xdd

  // ----- writing -----

  /** Every occurrence of `b` replaced. */
  function Replace(s: seq<Byte>, b: Byte, with: seq<Byte>): (r: seq<Byte>)
  {
    if s == [] then [] else Replace(s[..|s| - 1], b, with) + if s[|s| - 1] == b then with else [s[|s| - 1]]
  }

  /** What the writer sends for one packet. */
  function Write(packet: Packet): (r: seq<Byte>)
  {
    [END] + Replace(Replace(packet, ESC, [ESC, ESC_ESC]), END, [ESC, ESC_END]) + [END]
  }

  /** The escape of one byte, and of a packet byte by byte. */
  function EscapeByte(b: Byte): (r: seq<Byte>)
  {
    if b == END then [ESC, ESC_END] else if b == ESC then [ESC, ESC_ESC] else [b]
  }

  function Escape(p: Packet): (r: seq<Byte>)
  {
    if p == [] then [] else Escape(p[..|p| - 1]) + EscapeByte(p[|p| - 1])
  }

  lemma {:induction false} ReplaceAppends(s: seq<Byte>, t: seq<Byte>, b: Byte, with: seq<Byte>)
    ensures Replace(s + t, b, with) == Replace(s, b, with) + Replace(t, b, with)
    decreases |t|
  {
    if t == [] {
      assert s + t == s;
    } else {
      var u := s + t;
      assert u[..|u| - 1] == s + t[..|t| - 1];
      ReplaceAppends(s, t[..|t| - 1], b, with);
    }
  }

  /** The second replacement does not touch what the first one put in. */
  lemma {:induction false} TwoPassesEscape(p: Packet)
    ensures Replace(Replace(p, ESC, [ESC, ESC_ESC]), END, [ESC, ESC_END]) == Escape(p)
  {
    if p != [] {
      var front, b := p[..|p| - 1], p[|p| - 1];
      TwoPassesEscape(front);
      var last := if b == ESC then [ESC, ESC_ESC] else [b];
      ReplaceAppends(Replace(front, ESC, [ESC, ESC_ESC]), last, END, [ESC, ESC_END]);
      assert last[..|last| - 1] == if b == ESC then [ESC] else [];
      assert Replace(last[..|last| - 1], END, [ESC, ESC_END]) == last[..|last| - 1];
    }
  }

  lemma WriteFrames(p: Packet)
    ensures Write(p) == [END] + Escape(p) + [END]
  {
    TwoPassesEscape(p);
  }

  /** The bytes of a list of packets. */
  function Wire(ps: seq<Packet>): (r: seq<Byte>)
  {
    if ps == [] then [] else Wire(ps[..|ps| - 1]) + Write(ps[|ps| - 1])
  }

  // ----- reading -----

  datatype Error = TimedOut(header: bool) | InvalidHead(b: Byte) | InvalidEscape(b: Byte)

  datatype Reading = Reading(partial: Option<Packet>, inEscape: bool, packets: seq<Packet>, error: Option<Error>)

  const START := Reading(None, false, [], None)

  /** What one byte does to the reader; after an error it is finished. */
  function Step(r: Reading, b: Byte): (r': Reading)
  {
    if r.error.Some? then r
    else if r.partial.None? then
      if b == END then r.(partial := Some([])) else r.(error := Some(InvalidHead(b)))
    else if r.inEscape then
      if b == ESC_END then r.(inEscape := false, partial := Some(r.partial.value + [END]))
      else if b == ESC_ESC then r.(inEscape := false, partial := Some(r.partial.value + [ESC]))
      else r.(inEscape := false, error := Some(InvalidEscape(b)))
    else if b == ESC then r.(inEscape := true)
    else if b == END then r.(packets := r.packets + [r.partial.value], partial := None)
    else r.(partial := Some(r.partial.value + [b]))
  }

  function Run(r: Reading, s: seq<Byte>): (r': Reading)
  {
    if s == [] then r else Step(Run(r, s[..|s| - 1]), s[|s| - 1])
  }

  lemma {:induction false} RunAppends(r: Reading, s: seq<Byte>, t: seq<Byte>)
    ensures Run(r, s + t) == Run(Run(r, s), t)
    decreases |t|
  {
    if t == [] {
      assert s + t == s;
    } else {
      var u := s + t;
      assert u[..|u| - 1] == s + t[..|t| - 1];
      RunAppends(r, s, t[..|t| - 1]);
    }
  }

  lemma RunOne(r: Reading, b: Byte)
    ensures Run(r, [b]) == Step(r, b)
  {
    assert [b][..0] == [];
    assert Run(r, []) == r;
  }

  lemma RunByte(r: Reading, b: Byte)
    requires r.error.None? && r.partial.Some? && !r.inEscape
    ensures Run(r, EscapeByte(b)) == r.(partial := Some(r.partial.value + [b]))
  {
    var e := EscapeByte(b);
    RunOne(r, e[0]);
    if |e| == 2 {
      assert e[..1] == [e[0]];
    }
  }

  lemma {:induction false} RunPacket(r: Reading, p: Packet)
    requires r.error.None? && r.partial.Some? && !r.inEscape
    ensures Run(r, Escape(p)) == r.(partial := Some(r.partial.value + p))
    decreases |p|
  {
    if p == [] {
      assert r.partial.value + p == r.partial.value;
    } else {
      var front, b := p[..|p| - 1], p[|p| - 1];
      RunPacket(r, front);
      RunAppends(r, Escape(front), EscapeByte(b));
      RunByte(Run(r, Escape(front)), b);
      assert r.partial.value + front + [b] == r.partial.value + p;
    }
  }

  lemma RunFrame(r: Reading, p: Packet)
    requires r.error.None? && r.partial.None? && !r.inEscape
    ensures Run(r, Write(p)) == r.(packets := r.packets + [p])
  {
    WriteFrames(p);
    RunAppends(r, [END] + Escape(p), [END]);
    RunAppends(r, [END], Escape(p));
    RunOne(r, END);
    RunPacket(Step(r, END), p);
    assert [] + p == p;
    RunOne(Run(r, [END] + Escape(p)), END);
  }

  /** Whatever packets are written, the reader yields them and waits for the next. */
  lemma {:induction false} ReadsWhatWasWritten(ps: seq<Packet>)
    ensures Run(START, Wire(ps)) == Reading(None, false, ps, None)
    decreases |ps|
  {
    if ps != [] {
      var front, p := ps[..|ps| - 1], ps[|ps| - 1];
      ReadsWhatWasWritten(front);
      RunAppends(START, Wire(front), Write(p));
      RunFrame(Run(START, Wire(front)), p);
      assert front + [p] == ps;
    }
  }

  /** The bytes of a packet that has begun and not ended. */
  function Begun(r: Reading): (s: seq<Byte>)
  {
    if r.partial.None? then [] else [END] + Escape(r.partial.value) + if r.inEscape then [ESC] else []
  }

  /** The bytes so far are those of the packets yielded and of the one that has begun. */
  predicate Accounted(r: Reading, s: seq<Byte>)
  {
    r.error.None? ==> s == Wire(r.packets) + Begun(r) && (r.inEscape ==> r.partial.Some?)
  }

  /** And nothing else reads without an error. */
  lemma {:induction false} OnlyReadsWhatWasWritten(s: seq<Byte>)
    ensures Accounted(Run(START, s), s)
    decreases |s|
  {
    if s != [] {
      var front, b := s[..|s| - 1], s[|s| - 1];
      OnlyReadsWhatWasWritten(front);
      AccountedStep(Run(START, front), front, b);
      assert s == front + [b];
    }
  }

  lemma AccountedStep(q: Reading, s: seq<Byte>, b: Byte)
    requires Accounted(q, s)
    ensures Accounted(Step(q, b), s + [b])
  {
    if Step(q, b).error.None? {
      StepWrites(q, b);
      Longer(s, b, Wire(q.packets), Begun(q));
    }
  }

  lemma Longer(s: seq<Byte>, b: Byte, x: seq<Byte>, y: seq<Byte>)
    requires s == x + y
    ensures s + [b] == x + (y + [b])
  {
  }

  lemma EscapeAppends(p: Packet, b: Byte)
    ensures Escape(p + [b]) == Escape(p) + EscapeByte(b)
  {
    assert (p + [b])[..|p|] == p;
  }

  lemma WireAppends(ps: seq<Packet>, p: Packet)
    ensures Wire(ps + [p]) == Wire(ps) + Write(p)
  {
    assert (ps + [p])[..|ps|] == ps;
  }

  lemma Joined(e: seq<Byte>, esc: bool, last: seq<Byte>, b: Byte)
    requires last == if esc then [ESC, b] else [b]
    ensures [END] + (e + last) + [] == [END] + e + (if esc then [ESC] else []) + [b]
  {
  }

  /** A packet that goes on. */
  lemma StepGoesOn(q: Reading, b: Byte)
    requires q.error.None? && Step(q, b).error.None? && q.partial.Some? && (q.inEscape || b != END)
    ensures var r := Step(q, b); r.packets == q.packets && r.partial.Some? && Begun(r) == Begun(q) + [b]
  {
    var p := q.partial.value;
    if q.inEscape || b != ESC {
      var c := if q.inEscape then if b == ESC_END then END else ESC else b;
      EscapeAppends(p, c);
      Joined(Escape(p), q.inEscape, EscapeByte(c), b);
      assert Step(q, b) == q.(inEscape := false, partial := Some(p + [c]));
    }
  }

  /** A packet that ends. */
  lemma StepEnds(q: Reading)
    requires q.error.None? && q.partial.Some? && !q.inEscape
    ensures var r := Step(q, END); Begun(r) == [] && Wire(r.packets) == Wire(q.packets) + (Begun(q) + [END])
  {
    var p := q.partial.value;
    WireAppends(q.packets, p);
    WriteFrames(p);
    assert [END] + Escape(p) + [] == [END] + Escape(p);
    assert Step(q, END) == q.(packets := q.packets + [p], partial := None);
    assert Begun(q) == [END] + Escape(p) + [];
  }

  lemma StepWrites(q: Reading, b: Byte)
    requires q.error.None? && Step(q, b).error.None? && (q.inEscape ==> q.partial.Some?)
    ensures var r := Step(q, b); Wire(r.packets) + Begun(r) == Wire(q.packets) + (Begun(q) + [b]) && (r.inEscape ==> r.partial.Some?)
  {
    if q.partial.Some? {
      if q.inEscape || b != END { StepGoesOn(q, b); } else { StepEnds(q); }
    }
  }

  // ----- the reader -----

  function Concat(chunks: seq<seq<Byte>>): (r: seq<Byte>)
  {
    if chunks == [] then [] else Concat(chunks[..|chunks| - 1]) + chunks[|chunks| - 1]
  }

  /** A packet that was begun makes the timeout one of content, else of header. */
  function Finished(r: Reading): (r': Reading)
  {
    if r.error.Some? then r else r.(error := Some(TimedOut(r.partial.None?)))
  }

  /** Reads packets from the port until it runs dry or an error: the port delivers these
      chunks, each what was waiting or the one byte that was waited for, and then nothing. */
  method SlipReader(chunks: seq<seq<Byte>>) returns (packets: seq<Packet>, error: Error)
    requires forall i :: 0 <= i < |chunks| ==> chunks[i] != []
    ensures var r := Finished(Run(START, Concat(chunks))); packets == r.packets && error == r.error.value
  {
    var partial: Option<Packet>, inEscape := None, false;
    packets := [];
    var i := 0;
    while true
      invariant 0 <= i <= |chunks|
      invariant Run(START, Concat(chunks[..i])) == Reading(partial, inEscape, packets, None)
      decreases |chunks| - i
    {
      if i == |chunks| {
        assert chunks[..i] == chunks;
        return packets, TimedOut(partial.None?);
      }
      var read := chunks[i];
      ghost var before := Concat(chunks[..i]);
      assert chunks[..i + 1][..i] == chunks[..i];
      assert before + read[..0] == before;
      var j := 0;
      while j < |read|
        invariant 0 <= j <= |read| && read == chunks[i] && i < |chunks|
        invariant Run(START, before + read[..j]) == Reading(partial, inEscape, packets, None)
      {
        var b := read[j];
        Next(before, read, j);
        ghost var r := Reading(partial, inEscape, packets, None);
        if partial.None? {
          if b == END {
            partial := Some([]);
          } else {
            Stuck(chunks, i, j, Step(r, b));
            return packets, InvalidHead(b);
          }
        } else if inEscape {
          inEscape := false;
          if b == ESC_END {
            partial := Some(partial.value + [END]);
          } else if b == ESC_ESC {
            partial := Some(partial.value + [ESC]);
          } else {
            Stuck(chunks, i, j, Step(r, b));
            return packets, InvalidEscape(b);
          }
        } else if b == ESC {
          inEscape := true;
        } else if b == END {
          packets := packets + [partial.value];
          partial := None;
        } else {
          partial := Some(partial.value + [b]);
        }
        j := j + 1;
      }
      assert read[..j] == read;
      i := i + 1;
    }
  }

  lemma Next(before: seq<Byte>, read: seq<Byte>, j: nat)
    requires j < |read|
    ensures Run(START, before + read[..j + 1]) == Step(Run(START, before + read[..j]), read[j])
  {
    var u := before + read[..j + 1];
    assert u[..|u| - 1] == before + read[..j];
  }

  /** After an error the rest of the bytes changes nothing. */
  lemma Stuck(chunks: seq<seq<Byte>>, i: nat, j: nat, r: Reading)
    requires i < |chunks| && j < |chunks[i]| && r.error.Some?
    requires Run(START, Concat(chunks[..i]) + chunks[i][..j + 1]) == r
    ensures Run(START, Concat(chunks)) == r
  {
    ConcatAppends(chunks[..i + 1], chunks[i + 1..]);
    assert chunks[..i + 1] + chunks[i + 1..] == chunks;
    assert chunks[..i + 1][..i] == chunks[..i];
    var rest := chunks[i][j + 1..] + Concat(chunks[i + 1..]);
    assert Concat(chunks) == Concat(chunks[..i]) + chunks[i][..j + 1] + rest;
    RunAppends(START, Concat(chunks[..i]) + chunks[i][..j + 1], rest);
    StuckRun(r, rest);
  }

  lemma {:induction false} StuckRun(r: Reading, s: seq<Byte>)
    requires r.error.Some?
    ensures Run(r, s) == r
    decreases |s|
  {
    if s != [] { StuckRun(r, s[..|s| - 1]); }
  }

  lemma {:induction false} ConcatAppends(a: seq<seq<Byte>>, b: seq<seq<Byte>>)
    ensures Concat(a + b) == Concat(a) + Concat(b)
    decreases |b|
  {
    if b == [] {
      assert a + b == a;
    } else {
      var u := a + b;
      assert u[..|u| - 1] == a + b[..|b| - 1];
      ConcatAppends(a, b[..|b| - 1]);
    }
  }

  /** However the port cuts up the bytes, the reader yields exactly the packets that were
      written and then waits for a header; and only such bytes read like that. */
  lemma ReaderInvertsWriter(chunks: seq<seq<Byte>>, ps: seq<Packet>)
    ensures Concat(chunks) == Wire(ps) <==>
            Finished(Run(START, Concat(chunks))) == Reading(None, false, ps, Some(TimedOut(true)))
  {
    ReadsWhatWasWritten(ps);
    OnlyReadsWhatWasWritten(Concat(chunks));
    NoTimeouts(START, Concat(chunks));
  }

  /** Bytes cause no timeout. */
  lemma {:induction false} NoTimeouts(r: Reading, s: seq<Byte>)
    requires r.error.None?
    ensures Run(r, s).error.None? || !Run(r, s).error.value.TimedOut?
    decreases |s|
  {
    if s != [] { NoTimeouts(r, s[..|s| - 1]); }
  }

  // ----- what goes wrong -----

  lemma {:induction false} FirstError(s: seq<Byte>) returns (k: nat)
    requires Run(START, s).error.Some?
    ensures k < |s| && Run(START, s[..k]).error.None? && Run(START, s) == Step(Run(START, s[..k]), s[k])
    decreases |s|
  {
    var front := s[..|s| - 1];
    if Run(START, front).error.Some? {
      k := FirstError(front);
      assert front[..k] == s[..k];
    } else {
      k := |s| - 1;
    }
  }

  /** What an error says is so: behind whole packets, the byte in the place of an end byte is
      another one; or behind those and the beginning of one, the byte after an escape is
      neither of the two that may follow it. */
  lemma ErrorsAreRight(s: seq<Byte>) returns (k: nat, p: Packet)
    requires Run(START, s).error.Some?
    ensures k < |s| && var r := Run(START, s);
            match r.error.value
            case InvalidHead(b) => s[..k] == Wire(r.packets) && s[k] == b != 0xc0
            case InvalidEscape(b) => s[..k] == Wire(r.packets) + ([0xc0] + Escape(p) + [0xdb]) && s[k] == b && b != 0xdc && b != 0xdd
            case TimedOut(_) => false
  {
    k := FirstError(s);
    var q := Run(START, s[..k]);
    OnlyReadsWhatWasWritten(s[..k]);
    p := if q.partial.Some? then q.partial.value else [];
    assert Wire(q.packets) + [] == Wire(q.packets);
  }

  /** And when the port runs dry without an error, the timeout is one of header exactly if the
      bytes are whole packets. */
  lemma TimeoutsAreRight(s: seq<Byte>)
    requires Run(START, s).error.None?
    ensures var r := Run(START, s);
            Finished(r).error == Some(TimedOut(s == Wire(r.packets)))
  {
    OnlyReadsWhatWasWritten(s);
    var r := Run(START, s);
    assert r.partial.Some? ==> |Begun(r)| > 0;
  }

  /** One packet, byte by byte: both special bytes are escaped as RFC 1055 says. */
  lemma OnePacket()
    ensures Write([0xc0, 0xdb, 7]) == [0xc0, 0xdb, 0xdc, 0xdb, 0xdd, 7, 0xc0]
  {
    var p: Packet := [0xc0, 0xdb, 7];
    WriteFrames(p);
    assert p[..2][..1] == p[..1] && p[..1][..0] == [] && Escape([]) == [];
    assert Escape(p[..1]) == [0xdb, 0xdc];
    assert Escape(p[..2]) == Escape(p[..1]) + [0xdb, 0xdd];
    assert Escape(p) == Escape(p[..2]) + [7];
  }
}
