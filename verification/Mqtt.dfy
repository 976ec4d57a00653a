/**
 MQTT PUBLISH packets (sections 2.2.3 and 3.3 of MQTT 3.1.1): the remaining-length field,
 length-prefixed strings, and a writer and a reader that walk a buffer.
 */
module Mqtt {
  import opened Bytes
  import opened Options

  const PUBLISH: nat := 3
  const BUFFER_TOO_SHORT: int := -2
  const MAX_NO_OF_REMAINING_LENGTH_BYTES: nat := 4

  /** 128^4: the lengths from here on do not fit in four bytes. */
  const LENGTH_LIMIT: nat := 268435456

  // ----- the remaining length -----

  /** Seven bits to a byte, the lowest first; the top bit says that more follow. */
  function Digits(n: nat): (r: seq<Byte>)
    ensures |r| >= 1
  {
    if n < 128 then [n as Byte] else [(n % 128 + 128) as Byte] + Digits(n / 128)
  }

  datatype Field = Field(len: nat, value: nat)

  /** What a reader that gives up after `budget` bytes makes of a field: the bytes it counts,
      including the one it refuses to read, and the value so far. */
  function ReadField(s: seq<Byte>, budget: nat): (f: Field)
  {
    if budget == 0 || s == [] then Field(1, 0)
    else if s[0] < 128 then Field(1, s[0] as nat)
    else
      var rest := ReadField(s[1..], budget - 1);
      Field(1 + rest.len, (s[0] as int - 128) + 128 * rest.value)
  }

  function Pow128(k: nat): (r: nat)
    ensures r >= 1
  {
    if k == 0 then 1 else 128 * Pow128(k - 1)
  }

  /** Read back within a budget of k bytes, a length is itself exactly below 128^k. */
  lemma {:induction false} LengthRoundTrip(n: nat, k: nat, tail: seq<Byte>)
    requires k >= 1
    ensures n < Pow128(k) ==> ReadField(Digits(n) + tail, k) == Field(|Digits(n)|, n) && |Digits(n)| <= k
    ensures n >= Pow128(k) ==> ReadField(Digits(n) + tail, k).value != n && |Digits(n)| > k
  {
    var s := Digits(n) + tail;
    FieldIsSmall(s, k);
    if n >= 128 {
      assert s[1..] == Digits(n / 128) + tail;
      assert n == 128 * (n / 128) + n % 128;
      if k > 1 {
        LengthRoundTrip(n / 128, k - 1, tail);
      }
    }
  }

  lemma {:induction false} FieldIsSmall(s: seq<Byte>, k: nat)
    ensures ReadField(s, k).value < Pow128(k)
  {
    if k > 0 && s != [] && s[0] >= 128 { FieldIsSmall(s[1..], k - 1); }
  }

  /** The writer's estimate of a packet's size from its remaining length. */
  function PacketLen(rem: nat): (r: nat)
  {
    var n := rem + 1;
    if n < 128 then n + 1
    else if n < 16384 then n + 2
    else if n < 2097151 then n + 3
    else n + 4
  }

  lemma DigitCount(n: nat)
    ensures n < 128 ==> |Digits(n)| == 1
    ensures 128 <= n < 16384 ==> |Digits(n)| == 2
    ensures 16384 <= n < 2097152 ==> |Digits(n)| == 3
    ensures 2097152 <= n < LENGTH_LIMIT ==> |Digits(n)| == 4
    ensures n >= LENGTH_LIMIT ==> |Digits(n)| >= 5
  {
    var a, b, c := n / 128, n / 16384, n / 2097152;
    assert a / 128 == b && b / 128 == c;
    if n >= 128 { assert |Digits(n)| == 1 + |Digits(a)|; }
    if n >= 16384 { assert |Digits(a)| == 1 + |Digits(b)|; }
    if n >= 2097152 { assert |Digits(b)| == 1 + |Digits(c)|; }
    if n >= LENGTH_LIMIT { assert |Digits(c)| == 1 + |Digits(c / 128)|; }
  }

  /** The estimate bounds the true size from above exactly for lengths below 128^4, and is
      one too high at four of them, where a buffer of the true size is refused. */
  lemma EstimateBounds(rem: nat)
    ensures 1 + |Digits(rem)| + rem <= PacketLen(rem) <==> rem < LENGTH_LIMIT
    ensures rem < LENGTH_LIMIT ==>
              PacketLen(rem) == 1 + |Digits(rem)| + rem + if rem in {127, 16383, 2097150, 2097151} then 1 else 0
  {
    DigitCount(rem);
  }

  // ----- a packet -----

  datatype Publish = Publish(dup: nat, qos: nat, retained: nat, packetid: nat, topic: seq<Byte>, payload: seq<Byte>)

  predicate Legal(p: Publish)
  {
    p.dup < 2 && p.retained < 2 && p.qos <= 2 && p.packetid < 65536 && Remaining(p) < LENGTH_LIMIT
  }

  function Remaining(p: Publish): (r: nat)
  {
    2 + |p.topic| + |p.payload| + if p.qos > 0 then 2 else 0
  }

  function Joined(hi: Byte, lo: Byte): (r: nat) { 256 * (hi as int) + lo as int }

  /** Two bytes, the high one truncated to a byte. */
  function Int16(n: nat): (r: seq<Byte>)
    ensures |r| == 2
  {
    [(n / 256 % 256) as Byte, (n % 256) as Byte]
  }

  lemma Int16Joins(n: nat)
    ensures Joined(Int16(n)[0], Int16(n)[1]) == n % 65536
  {
    TwoDigits(n);
  }

  lemma TwoDigits(n: int)
    requires n >= 0
    ensures 256 * (n / 256 % 256) + n % 256 == n % 65536
  {
    var q := n / 256;
    assert n == 256 * q + n % 256 && q == 256 * (q / 256) + q % 256;
    assert n == 65536 * (q / 256) + (256 * (q % 256) + n % 256);
  }

  /** The header byte: type, dup, qos, retain from the top bit down, each cut to its width. */
  function Header(p: Publish): (r: Byte)
  {
    (16 * PUBLISH + 8 * (p.dup % 2) + 2 * (p.qos % 4) + p.retained % 2) as Byte
  }

  /** The bytes of a packet, as the standard lays them out. */
  function Packet(p: Publish): (r: seq<Byte>)
    requires Legal(p)
  {
    Framed(p, Remaining(p))
  }

  /** Header, length field and body, whatever length the field gives. */
  function Framed(p: Publish, rem: nat): (r: seq<Byte>)
    ensures |r| == 1 + |Digits(rem)| + |Body(p)|
  {
    [Header(p)] + Digits(rem) + Body(p)
  }

  /** It is the standard's packet exactly if the length is the right one. */
  lemma FramedRightly(p: Publish, rem: nat)
    requires Legal(p)
    ensures Framed(p, rem) == Packet(p) <==> rem == Remaining(p)
  {
    var n := Remaining(p);
    if Framed(p, rem) == Packet(p) {
      assert |Digits(rem)| == |Digits(n)|;
      assert Framed(p, rem)[1..1 + |Digits(n)|] == Digits(rem) && Packet(p)[1..1 + |Digits(n)|] == Digits(n);
      assert Pow128(4) == LENGTH_LIMIT by { assert Pow128(1) == 128 && Pow128(2) == 16384 && Pow128(3) == 2097152; }
      LengthRoundTrip(n, 4, []);
      LengthRoundTrip(rem, 4, []);
    }
  }

  function Body(p: Publish): (r: seq<Byte>)
    ensures |r| == Remaining(p)
  {
    Int16(|p.topic|) + p.topic + Id(p.qos, p.packetid) + p.payload
  }

  function Id(qos: nat, packetid: nat): (r: seq<Byte>)
    ensures |r| == if qos > 0 then 2 else 0
  {
    if qos > 0 then Int16(packetid) else []
  }

  // ----- writing -----

  /** `bytes` were written at `at`, and nothing else. */
  ghost predicate Wrote(before: seq<Byte>, after: seq<Byte>, at: nat, bytes: seq<Byte>)
  {
    at + |bytes| <= |before| && after == before[..at] + bytes + before[at + |bytes|..]
  }

  lemma WroteBoth(a: seq<Byte>, b: seq<Byte>, c: seq<Byte>, at: nat, x: seq<Byte>, y: seq<Byte>)
    requires Wrote(a, b, at, x) && Wrote(b, c, at + |x|, y)
    ensures Wrote(a, c, at, x + y)
  {
    assert c[..at] == b[..at] == a[..at];
    assert c[at..at + |x|] == b[at..at + |x|] == x;
    assert c == a[..at] + (x + y) + a[at + |x + y|..];
  }

  lemma WroteThree(a: seq<Byte>, b: seq<Byte>, c: seq<Byte>, d: seq<Byte>, at: nat, x: seq<Byte>, y: seq<Byte>, z: seq<Byte>)
    requires Wrote(a, b, at, x) && Wrote(b, c, at + |x|, y) && Wrote(c, d, at + |x| + |y|, z)
    ensures Wrote(a, d, at, x + y + z)
  {
    WroteBoth(a, b, c, at, x, y);
    assert at + |x + y| == at + |x| + |y|;
    WroteBoth(a, c, d, at, x + y, z);
  }

  lemma WroteNothing(b: seq<Byte>, at: nat)
    requires at <= |b|
    ensures Wrote(b, b, at, [])
  {
  }

  method WriteChar(buf: array<Byte>, ptr: nat, c: Byte) returns (ptr': nat)
    requires ptr < buf.Length
    modifies buf
    ensures ptr' == ptr + 1 && Wrote(old(buf[..]), buf[..], ptr, [c])
  {
    buf[ptr] := c;
    ptr' := ptr + 1;
  }

  method WriteInt(buf: array<Byte>, ptr: nat, n: nat) returns (ptr': nat)
    requires ptr + 2 <= buf.Length
    modifies buf
    ensures ptr' == ptr + 2 && Wrote(old(buf[..]), buf[..], ptr, Int16(n))
  {
    buf[ptr] := (n / 256 % 256) as Byte;
    buf[ptr + 1] := (n % 256) as Byte;
    ptr' := ptr + 2;
  }

  method Copy(buf: array<Byte>, ptr: nat, s: seq<Byte>) returns (ptr': nat)
    requires ptr + |s| <= buf.Length
    modifies buf
    ensures ptr' == ptr + |s| && Wrote(old(buf[..]), buf[..], ptr, s)
  {
    forall i | 0 <= i < |s| { buf[ptr + i] := s[i]; }
    assert buf[..] == old(buf[..])[..ptr] + s + old(buf[..])[ptr + |s|..];
    ptr' := ptr + |s|;
  }

  /** The digits still to come. */
  function Rest(n: nat): (r: seq<Byte>)
  {
    if n > 0 then Digits(n) else []
  }

  function Digit(n: nat): (r: Byte)
  {
    (n % 128 + if n / 128 > 0 then 128 else 0) as Byte
  }

  lemma NextDigit(n: nat)
    ensures Digits(n) == [Digit(n)] + Rest(n / 128)
  {
  }

  lemma NextDone(length: nat, done: seq<Byte>, n: nat)
    requires n > 0 && Digits(length) == done + Rest(n)
    ensures Digits(length) == done + [Digit(n)] + Rest(n / 128) && |done| < |Digits(length)|
  {
    NextDigit(n);
  }

  /** Writes the length field and returns its size. */
  method Encode(buf: array<Byte>, ptr: nat, length: nat) returns (rc: nat)
    requires ptr + |Digits(length)| <= buf.Length
    modifies buf
    ensures rc == |Digits(length)| && Wrote(old(buf[..]), buf[..], ptr, Digits(length))
  {
    ghost var b0 := buf[..];
    NextDigit(length);
    var n := WriteDigit(buf, ptr, length);
    rc := 1;
    ghost var done := [Digit(length)];
    while n > 0
      invariant rc == |done| && Written(b0, buf[..], ptr, length, done, n)
    {
      ghost var b, d := buf[..], Digit(n);
      Shorter(b0, b, ptr, length, done, n);
      ghost var m: nat := n;
      n := WriteDigit(buf, ptr + rc, n);
      OneMoreDigit(b0, b, buf[..], ptr, length, done, m);
      done := done + [d];
      rc := rc + 1;
    }
    assert Digits(length) == done;
  }

  /** The digits `done` have been written, and those of `n` are still to come. */
  ghost predicate Written(before: seq<Byte>, after: seq<Byte>, at: nat, length: nat, done: seq<Byte>, n: nat)
  {
    Digits(length) == done + Rest(n) && Wrote(before, after, at, done)
  }

  lemma Shorter(before: seq<Byte>, after: seq<Byte>, at: nat, length: nat, done: seq<Byte>, n: nat)
    requires Written(before, after, at, length, done, n) && n > 0
    ensures |done| < |Digits(length)|
  {
    NextDone(length, done, n);
  }

  lemma OneMoreDigit(a: seq<Byte>, b: seq<Byte>, c: seq<Byte>, at: nat, length: nat, done: seq<Byte>, n: nat)
    requires Written(a, b, at, length, done, n) && n > 0 && Wrote(b, c, at + |done|, [Digit(n)])
    ensures Written(a, c, at, length, done + [Digit(n)], n / 128)
  {
    NextDone(length, done, n);
    WroteBoth(a, b, c, at, done, [Digit(n)]);
  }

  /** Writes one digit, with its top bit set if more follow. */
  method WriteDigit(buf: array<Byte>, ptr: nat, n: nat) returns (rest: nat)
    requires ptr < buf.Length
    modifies buf
    ensures rest == n / 128 && Wrote(old(buf[..]), buf[..], ptr, [Digit(n)])
  {
    var d: nat := n % 128;
    rest := n / 128;
    if rest > 0 { d := d + 128; }
    var next := WriteChar(buf, ptr, d as Byte);
  }

  /** A string in either of its two forms. */
  datatype MqttString = MqttString(cstring: Option<seq<Byte>>, lenstring: seq<Byte>)

  /** What is written of it: the counted form comes first. */
  function Text(s: MqttString): (r: seq<Byte>)
  {
    if s.lenstring != [] then s.lenstring else if s.cstring.Some? then s.cstring.value else []
  }

  /** What is counted of it: the C form comes first. */
  function StrLen(s: MqttString): (r: nat)
  {
    if s.cstring.Some? then |s.cstring.value| else |s.lenstring|
  }

  /** The two agree exactly if the forms do not differ in length. */
  lemma FormsAgree(s: MqttString)
    ensures StrLen(s) == |Text(s)| <==> s.cstring.None? || s.lenstring == [] || |s.cstring.value| == |s.lenstring|
  {
  }

  method WriteStr(buf: array<Byte>, ptr: nat, s: MqttString) returns (ptr': nat)
    requires ptr + 2 + |Text(s)| <= buf.Length
    modifies buf
    ensures ptr' == ptr + 2 + |Text(s)|
    ensures Wrote(old(buf[..]), buf[..], ptr, Int16(|Text(s)|) + Text(s))
  {
    if s.lenstring != [] {
      ptr' := WriteInt(buf, ptr, |s.lenstring|);
      ghost var b := buf[..];
      ptr' := Copy(buf, ptr', s.lenstring);
      WroteBoth(old(buf[..]), b, buf[..], ptr, Int16(|Text(s)|), Text(s));
    } else if s.cstring.Some? {
      ptr' := WriteInt(buf, ptr, |s.cstring.value|);
      ghost var b := buf[..];
      ptr' := Copy(buf, ptr', s.cstring.value);
      WroteBoth(old(buf[..]), b, buf[..], ptr, Int16(|Text(s)|), Text(s));
    } else {
      ptr' := WriteInt(buf, ptr, 0);
      assert Int16(0) + Text(s) == Int16(0);
    }
  }

  lemma WroteBody(a: seq<Byte>, b: seq<Byte>, c: seq<Byte>, d: seq<Byte>, at: nat, p: Publish)
    requires Wrote(a, b, at, Int16(|p.topic|) + p.topic) && Wrote(b, c, at + 2 + |p.topic|, Id(p.qos, p.packetid))
    requires Wrote(c, d, at + 2 + |p.topic| + |Id(p.qos, p.packetid)|, p.payload)
    ensures Wrote(a, d, at, Body(p))
  {
    WroteThree(a, b, c, d, at, Int16(|p.topic|) + p.topic, Id(p.qos, p.packetid), p.payload);
  }

  /** Writes what follows the length. */
  method WriteBody(buf: array<Byte>, ptr: nat, qos: nat, packetid: nat, topicName: MqttString, payload: seq<Byte>, ghost p: Publish)
    returns (ptr': nat)
    requires p == Publish(p.dup, qos, p.retained, packetid, Text(topicName), payload) && ptr + Remaining(p) <= buf.Length
    modifies buf
    ensures ptr' == ptr + Remaining(p) && Wrote(old(buf[..]), buf[..], ptr, Body(p))
  {
    ghost var b0 := buf[..];
    ptr' := WriteStr(buf, ptr, topicName);
    ghost var b1 := buf[..];
    ptr' := WriteId(buf, ptr', qos, packetid);
    ghost var b2 := buf[..];
    ptr' := Copy(buf, ptr', payload);
    WroteBody(b0, b1, b2, buf[..], ptr, p);
  }

  method WriteId(buf: array<Byte>, ptr: nat, qos: nat, packetid: nat) returns (ptr': nat)
    requires ptr + |Id(qos, packetid)| <= buf.Length
    modifies buf
    ensures ptr' == ptr + |Id(qos, packetid)| && Wrote(old(buf[..]), buf[..], ptr, Id(qos, packetid))
  {
    ptr' := ptr;
    if qos > 0 {
      ptr' := WriteInt(buf, ptr, packetid);
    } else {
      WroteNothing(buf[..], ptr);
    }
  }

  /** The length that is written for a packet, from what is counted of the topic. */
  function CountedLength(qos: nat, topicName: MqttString, payload: seq<Byte>): (r: nat)
  {
    2 + StrLen(topicName) + |payload| + if qos > 0 then 2 else 0
  }

  /** Writes a packet, or nothing if the buffer may be too short for it.  (There is memory
      for what it writes.) */
  method SerializePublish(buf: array<Byte>, dup: nat, qos: nat, retained: nat, packetid: nat, topicName: MqttString, payload: seq<Byte>)
    returns (rc: int)
    requires var p, rem := Publish(dup, qos, retained, packetid, Text(topicName), payload), CountedLength(qos, topicName, payload);
             PacketLen(rem) <= buf.Length ==> |Framed(p, rem)| <= buf.Length
    modifies buf
    ensures var p, rem := Publish(dup, qos, retained, packetid, Text(topicName), payload), CountedLength(qos, topicName, payload);
            if PacketLen(rem) > buf.Length then rc == BUFFER_TOO_SHORT && buf[..] == old(buf[..])
            else rc == |Framed(p, rem)| && Wrote(old(buf[..]), buf[..], 0, Framed(p, rem))
  {
    ghost var p := Publish(dup, qos, retained, packetid, Text(topicName), payload);
    var rem := 2 + StrLen(topicName) + |payload| + if qos > 0 then 2 else 0;
    if PacketLen(rem) > buf.Length {
      return BUFFER_TOO_SHORT;
    }
    ghost var b0 := buf[..];
    var ptr := WriteChar(buf, 0, (16 * PUBLISH + 8 * (dup % 2) + 2 * (qos % 4) + retained % 2) as Byte);
    ghost var b1 := buf[..];
    var n := Encode(buf, ptr, rem);
    ptr := ptr + n;
    ghost var b2 := buf[..];
    ptr := WriteBody(buf, ptr, qos, packetid, topicName, payload, p);
    WroteThree(b0, b1, b2, buf[..], 0, [Header(p)], Digits(rem), Body(p));
    rc := ptr;
  }

  /** What is written is the standard's packet if and only if the two forms of the topic do
      not differ in length, for lengths below 128^4; and then it fits whenever the estimate
      does. */
  lemma WritesPacket(dup: nat, qos: nat, retained: nat, packetid: nat, topicName: MqttString, payload: seq<Byte>)
    requires Legal(Publish(dup, qos, retained, packetid, Text(topicName), payload))
    ensures var p, rem := Publish(dup, qos, retained, packetid, Text(topicName), payload), CountedLength(qos, topicName, payload);
            && (Framed(p, rem) == Packet(p) <==> StrLen(topicName) == |Text(topicName)|)
            && (Framed(p, rem) == Packet(p) ==> |Packet(p)| <= PacketLen(rem))
  {
    var p, rem := Publish(dup, qos, retained, packetid, Text(topicName), payload), CountedLength(qos, topicName, payload);
    FramedRightly(p, rem);
    EstimateBounds(rem);
  }

  // ----- reading -----

  /** `v` shifted up by `len` digits. */
  function Shifted(v: nat, len: nat): (r: nat)
  {
    if len == 0 then v else 128 * Shifted(v, len - 1)
  }

  lemma {:induction false} ShiftSplits(c: nat, v: nat, len: nat)
    ensures Shifted(c + 128 * v, len) == Shifted(c, len) + Shifted(v, len + 1)
    ensures Shifted(c, len) == c * Pow128(len)
  {
    if len == 0 {
      assert Shifted(v, 0) == v;
    } else {
      ShiftSplits(c, v, len - 1);
      assert c * Pow128(len) == 128 * (c * Pow128(len - 1));
    }
  }

  /** A part of a field is read: `len` bytes so far, and their value. */
  ghost predicate Partly(s: seq<Byte>, max: nat, len: nat, value: nat)
    requires len <= max && len <= |s|
  {
    var rest := ReadField(s[len..], max - len);
    ReadField(s, max) == Field(len + rest.len, value + Shifted(rest.value, len))
  }

  lemma FieldAt(s: seq<Byte>, len: nat, k: nat)
    requires 0 < k && len < |s|
    ensures var rest := ReadField(s[len + 1..], k - 1); var c := s[len] as int;
            ReadField(s[len..], k) == if c < 128 then Field(1, c) else Field(1 + rest.len, c - 128 + 128 * rest.value)
  {
    assert s[len..][1..] == s[len + 1..] && s[len..][0] == s[len];
  }

  lemma PartlyMore(s: seq<Byte>, max: nat, len: nat, value: nat)
    requires len < max && len < |s| && Partly(s, max, len, value) && s[len] >= 128
    ensures Partly(s, max, len + 1, value + Shifted(s[len] as int - 128, len))
  {
    FieldAt(s, len, max - len);
    Carried(len, value, s[len] as int - 128, ReadField(s[len + 1..], max - len - 1), ReadField(s, max));
  }

  lemma PartlyLast(s: seq<Byte>, max: nat, len: nat, value: nat)
    requires len < max && len < |s| && Partly(s, max, len, value) && s[len] < 128
    ensures ReadField(s, max) == Field(len + 1, value + Shifted(s[len] as int, len))
  {
    FieldAt(s, len, max - len);
  }

  /** The digit just read moves from the rest to the value. */
  lemma Carried(len: nat, value: nat, digit: nat, rest: Field, whole: Field)
    requires whole == Field(len + (1 + rest.len), value + Shifted(digit + 128 * rest.value, len))
    ensures whole == Field(len + 1 + rest.len, value + Shifted(digit, len) + Shifted(rest.value, len + 1))
  {
    ShiftSplits(digit, rest.value, len);
  }

  /** Reads a length field of at most four bytes. */
  method Decode(buf: array<Byte>, at: nat) returns (len: nat, value: nat)
    requires at <= buf.Length && at + ReadField(buf[at..], MAX_NO_OF_REMAINING_LENGTH_BYTES).len <= buf.Length
    ensures Field(len, value) == ReadField(buf[at..], MAX_NO_OF_REMAINING_LENGTH_BYTES)
  {
    ghost var s := buf[at..];
    var multiplier: nat := 1;
    len, value := 0, 0;
    assert s[0..] == s;
    while true
      invariant len <= MAX_NO_OF_REMAINING_LENGTH_BYTES && len <= |s| && multiplier == Pow128(len) && Partly(s, MAX_NO_OF_REMAINING_LENGTH_BYTES, len, value)
      decreases MAX_NO_OF_REMAINING_LENGTH_BYTES + 1 - len
    {
      len := len + 1;
      if len > MAX_NO_OF_REMAINING_LENGTH_BYTES {
        return;
      }
      var c := buf[at + len - 1] as nat;
      if c < 128 { PartlyLast(s, MAX_NO_OF_REMAINING_LENGTH_BYTES, len - 1, value); } else { PartlyMore(s, MAX_NO_OF_REMAINING_LENGTH_BYTES, len - 1, value); }
      ShiftSplits(if c < 128 then c else c - 128, 0, len - 1);
      if c < 128 {
        value := value + c * multiplier;
        return;
      }
      value := value + (c - 128) * multiplier;
      multiplier := multiplier * 128;
    }
  }

  /** What the length field announces. */
  function Announced(s: seq<Byte>): (f: Field)
    requires s != []
  {
    ReadField(s[1..], MAX_NO_OF_REMAINING_LENGTH_BYTES)
  }

  function TypeOf(s: seq<Byte>): (t: nat)
    requires s != []
  {
    s[0] as nat / 16
  }

  /** The buffer holds what the length field announces. */
  predicate Holds(s: seq<Byte>)
  {
    s != [] && 1 + Announced(s).len + Announced(s).value <= |s|
  }

  function BodyOf(s: seq<Byte>): (r: seq<Byte>)
    requires Holds(s)
  {
    s[1 + Announced(s).len..1 + Announced(s).len + Announced(s).value]
  }

  predicate TopicFits(body: seq<Byte>)
  {
    |body| >= 2 && 2 + Joined(body[0], body[1]) <= |body|
  }

  /** There is room for the packet id that the qos calls for. */
  predicate IdFits(s: seq<Byte>)
    requires Holds(s)
  {
    var b := BodyOf(s);
    TopicFits(b) && s[0] as nat / 2 % 4 > 0 ==> 4 + Joined(b[0], b[1]) <= |b|
  }

  /** `p` is what these bytes say. */
  ghost predicate Says(s: seq<Byte>, p: Publish)
    requires Holds(s)
  {
    && p.dup < 2 && p.retained < 2 && p.qos <= 3 && Header(p) == s[0] && Body(p) == BodyOf(s)
    && |p.topic| < 65536 && p.packetid < 65536 && (p.qos == 0 ==> p.packetid == 0)
  }

  /** What the reader leaves in its out-parameters, which start at zero: the fields, and the
      lengths of topic and payload, which are set on their own. */
  datatype Answer = Answer(p: Publish, topicLen: nat, payloadLen: int)

  const NOTHING := Answer(Publish(0, 0, 0, 0, [], []), 0, 0)

  /** The fields and the lengths agree, and are what the bytes say. */
  ghost predicate Truthful(s: seq<Byte>, a: Answer)
    requires Holds(s)
  {
    Says(s, a.p) && a.topicLen == |a.p.topic| && a.payloadLen == |a.p.payload|
  }

  /** Reads a packet.  The return code is 1 for success; when the topic does not fit it is
      what was last assigned to it, the size of the length field.  So of the packets that
      have no room for what they announce, those without room for the id are reported as
      read, with a negative payload length; and so are those whose topic does not fit and
      whose length field is one byte, with the topic length that the bytes claim. */
  method DeserializePublish(buf: array<Byte>) returns (rc: nat, a: Answer)
    requires Holds(buf[..])
    ensures TypeOf(buf[..]) != PUBLISH ==> rc == 0 && a == NOTHING
    ensures TypeOf(buf[..]) == PUBLISH ==>
              var h := buf[0] as nat; a.p.dup == h / 8 % 2 && a.p.qos == h / 2 % 4 && a.p.retained == h % 2
    ensures TypeOf(buf[..]) == PUBLISH ==> (rc == 1 && Truthful(buf[..], a) <==> TopicFits(BodyOf(buf[..])) && IdFits(buf[..]))
    ensures TypeOf(buf[..]) == PUBLISH ==> (rc == 1 <==> TopicFits(BodyOf(buf[..])) || Announced(buf[..]).len == 1)
    ensures TypeOf(buf[..]) == PUBLISH && !TopicFits(BodyOf(buf[..])) ==>
              && rc == Announced(buf[..]).len && a.p.topic == [] && a.p.payload == [] && a.payloadLen == 0
              && a.topicLen == if |BodyOf(buf[..])| >= 2 then Joined(BodyOf(buf[..])[0], BodyOf(buf[..])[1]) else 0
    ensures TypeOf(buf[..]) == PUBLISH && TopicFits(BodyOf(buf[..])) && !IdFits(buf[..]) ==>
              var b := BodyOf(buf[..]); var n := Joined(b[0], b[1]);
              a.p.topic == b[2..2 + n] && a.topicLen == n && a.p.payload == [] && a.payloadLen == |b| - (4 + n) < 0
  {
    a, rc := NOTHING, 0;
    ghost var s := buf[..];
    var h := buf[0] as nat;
    if h / 16 != PUBLISH {
      return;
    }
    var p := a.p.(dup := h / 8 % 2, qos := h / 2 % 4, retained := h % 2);
    assert buf[1..] == s[1..];
    var mylen;
    rc, mylen := Decode(buf, 1);
    var cur := 1 + rc;
    var end := cur + mylen;
    assert BodyOf(s) == buf[cur..end];
    var ok, topic, topicLen, id, payload, payloadLen := ReadBody(buf, cur, end, p.qos);
    a := Answer(p.(topic := topic, packetid := id, payload := payload), topicLen, payloadLen);
    if ok {
      rc := 1;
      if IdFits(s) { Rebuilt(s, a.p); }
    }
    if Says(s, a.p) { SaysFits(s, a.p); }
    FieldCounts(s[1..], MAX_NO_OF_REMAINING_LENGTH_BYTES);
  }

  lemma FieldCounts(s: seq<Byte>, k: nat)
    ensures ReadField(s, k).len >= 1
  {
  }

  /** Bytes without room for the topic or the id say no packet. */
  lemma SaysFits(s: seq<Byte>, p: Publish)
    requires Holds(s) && Says(s, p)
    ensures TopicFits(BodyOf(s)) && IdFits(s)
  {
    BodyFits(p);
    HeaderQos(p);
  }

  lemma HeaderQos(p: Publish)
    requires p.dup < 2 && p.retained < 2 && p.qos <= 3
    ensures Header(p) as nat / 2 % 4 == p.qos
  {
  }

  /** Reads a 16-bit number: beyond the buffer, of whatever follows it in memory. */
  method ReadInt(buf: array<Byte>, at: nat) returns (n: nat)
    ensures at + 2 <= buf.Length ==> n == Joined(buf[at], buf[at + 1])
    ensures n < 65536
  {
    if at + 2 <= buf.Length {
      n := Joined(buf[at], buf[at + 1]);
    } else {
      n :| n < 65536;
    }
  }

  /** Reads a counted string, if it ends before `end`; its length is stored first. */
  method ReadStr(buf: array<Byte>, cur: nat, end: nat) returns (ok: bool, s: seq<Byte>, len: nat, cur': nat)
    requires cur <= end <= buf.Length
    ensures ok <==> TopicFits(buf[cur..end])
    ensures len == if end - cur > 1 then Joined(buf[cur..end][0], buf[cur..end][1]) else 0
    ensures ok ==> |s| == len && s == buf[cur..end][2..2 + |s|] && cur' == cur + 2 + |s|
    ensures !ok ==> s == []
  {
    ok, s, len, cur' := false, [], 0, cur;
    ghost var b := buf[cur..end];
    if end - cur > 1 {
      assert b[0] == buf[cur] && b[1] == buf[cur + 1];
      len := ReadInt(buf, cur);
      cur' := cur + 2;
      if cur' + len <= end {
        s := buf[cur'..cur' + len];
        assert |s| == len && forall i :: 0 <= i < len ==> s[i] == b[2 + i];
        cur' := cur' + len;
        ok := true;
      }
    }
  }

  method ReadBody(buf: array<Byte>, cur: nat, end: nat, qos: nat)
    returns (ok: bool, topic: seq<Byte>, topicLen: nat, id: nat, payload: seq<Byte>, payloadLen: int)
    requires cur <= end <= buf.Length
    ensures var b := buf[cur..end];
            && (ok <==> TopicFits(b)) && topicLen == (if |b| >= 2 then Joined(b[0], b[1]) else 0)
            && (!ok ==> topic == [] && payload == [] && payloadLen == 0)
            && (ok ==> topic == b[2..2 + topicLen] && payloadLen == |b| - if qos > 0 then 4 + topicLen else 2 + topicLen)
            && (ok && payloadLen >= 0 ==> Cut(b, Publish(0, qos, 0, id, topic, payload)) && payloadLen == |payload|)
            && (payloadLen < 0 ==> payload == [])
  {
    id, payload, payloadLen := 0, [], 0;
    var at;
    ok, topic, topicLen, at := ReadStr(buf, cur, end);
    if ok {
      ghost var b, n := buf[cur..end], |topic|;
      if qos > 0 {
        id := ReadInt(buf, at);
        assert 4 + n <= |b| ==> b[2 + n] == buf[at] && b[3 + n] == buf[at + 1];
        at := at + 2;
      }
      payloadLen := end - at;
      if payloadLen >= 0 {
        payload := buf[at..end];
        assert payload == b[at - cur..];
      }
    }
  }

  lemma Rebuilt(s: seq<Byte>, p: Publish)
    requires Holds(s) && TopicFits(BodyOf(s)) && IdFits(s) && TypeOf(s) == PUBLISH
    requires p.dup == s[0] as nat / 8 % 2 && p.qos == s[0] as nat / 2 % 4 && p.retained == s[0] as nat % 2
    requires Cut(BodyOf(s), p)
    ensures Says(s, p)
  {
    HeaderRebuilt(s[0], p);
    BodyRebuilt(BodyOf(s), p);
  }

  lemma HeaderRebuilt(h: Byte, p: Publish)
    requires h as nat / 16 == PUBLISH && p.dup == h as nat / 8 % 2 && p.qos == h as nat / 2 % 4 && p.retained == h as nat % 2
    ensures p.dup < 2 && p.retained < 2 && p.qos <= 3 && Header(p) == h
  {
    var x := h as int;
    HeaderBits(x);
  }

  lemma HeaderBits(x: int)
    requires 0 <= x < 256
    ensures x == 16 * (x / 16) + 8 * (x / 8 % 2) + 2 * (x / 2 % 4) + x % 2
  {
    var a, b := x / 2, x / 8;
    assert x == 2 * a + x % 2 && a == 4 * (a / 4) + a % 4 && b == 2 * (b / 2) + b % 2;
    assert a / 4 == b && b / 2 == x / 16;
  }

  /** The parts of a body where their lengths put them. */
  predicate Cut(b: seq<Byte>, p: Publish)
    requires TopicFits(b)
  {
    var n := Joined(b[0], b[1]);
    var m := if p.qos > 0 then 4 + n else 2 + n;
    m <= |b| && p.topic == b[2..2 + n] && p.payload == b[m..]
    && p.packetid == if p.qos > 0 then Joined(b[2 + n], b[3 + n]) else 0
  }

  lemma BodyRebuilt(b: seq<Byte>, p: Publish)
    requires TopicFits(b) && Cut(b, p)
    ensures Body(p) == b && |p.topic| < 65536 && p.packetid < 65536 && (p.qos == 0 ==> p.packetid == 0)
  {
    var n := Joined(b[0], b[1]);
    var m := if p.qos > 0 then 4 + n else 2 + n;
    PairIs(b, 0, n);
    IdIs(b, p, 2 + n, m);
    BodyIs(p, b[..2], b[2..2 + n], b[2 + n..m], b[m..]);
    Glue(b, 2, 2 + n, m);
  }

  lemma IdIs(b: seq<Byte>, p: Publish, i: nat, m: nat)
    requires i <= m <= |b| && m == if p.qos > 0 then i + 2 else i
    requires p.packetid == if p.qos > 0 then Joined(b[i], b[i + 1]) else 0
    ensures Id(p.qos, p.packetid) == b[i..m] && p.packetid < 65536
  {
    if p.qos > 0 { PairIs(b, i, p.packetid); }
  }

  lemma BodyIs(p: Publish, n: seq<Byte>, topic: seq<Byte>, id: seq<Byte>, payload: seq<Byte>)
    requires Int16(|p.topic|) == n && p.topic == topic && Id(p.qos, p.packetid) == id && p.payload == payload
    ensures Body(p) == n + topic + id + payload
  {
  }

  lemma PairIs(b: seq<Byte>, i: nat, n: nat)
    requires i + 2 <= |b| && n == Joined(b[i], b[i + 1])
    ensures Int16(n) == b[i..i + 2] && n < 65536
  {
    Splits(b[i], b[i + 1]);
    assert b[i..i + 2] == [b[i], b[i + 1]];
  }

  lemma Glue(b: seq<Byte>, i: nat, j: nat, k: nat)
    requires i <= j <= k <= |b|
    ensures b[..i] + b[i..j] + b[j..k] + b[k..] == b
  {
  }

  lemma Splits(hi: Byte, lo: Byte)
    ensures Int16(Joined(hi, lo)) == [hi, lo] && Joined(hi, lo) < 65536
  {
  }

  // ----- the round trip -----

  lemma BodyParts(p: Publish)
    ensures var b, n := Body(p), |p.topic|; var m := if p.qos > 0 then 4 + n else 2 + n;
            b[..2] == Int16(n) && b[2..2 + n] == p.topic && b[m..] == p.payload && (p.qos > 0 ==> b[2 + n..4 + n] == Int16(p.packetid))
  {
    var b, n, m := Body(p), |p.topic|, if p.qos > 0 then 4 + |p.topic| else 2 + |p.topic|;
    var id := Id(p.qos, p.packetid);
    assert b == Int16(n) + (p.topic + id + p.payload);
    assert b == (Int16(n) + p.topic + id) + p.payload;
    assert b[2..2 + n] == p.topic;
  }

  lemma SameInt16(a: nat, b: nat)
    requires Int16(a) == Int16(b) && b < 65536
    ensures a < 65536 <==> a == b
  {
    Int16Joins(a);
    Int16Joins(b);
  }

  lemma BodyDetermines(p: Publish, q: Publish)
    requires Body(p) == Body(q) && p.qos == q.qos && |q.topic| < 65536
    ensures |p.topic| < 65536 ==> p.topic == q.topic && p.payload == q.payload
    ensures |p.topic| < 65536 && p.packetid < 65536 && q.packetid < 65536 && p.qos > 0 ==> p.packetid == q.packetid
    ensures |p.topic| >= 65536 ==> p.topic != q.topic
  {
    BodyParts(p);
    BodyParts(q);
    SameInt16(|p.topic|, |q.topic|);
    if p.qos > 0 && |p.topic| < 65536 && p.packetid < 65536 && q.packetid < 65536 { SameInt16(p.packetid, q.packetid); }
  }

  /** A written packet is one that can be read, whatever follows it in the buffer. */
  lemma PacketIsReadable(p: Publish, tail: seq<Byte>)
    requires Legal(p)
    ensures var s := Packet(p) + tail;
            Holds(s) && TypeOf(s) == PUBLISH && BodyOf(s) == Body(p) && s[0] == Header(p) && s[0] as nat / 2 % 4 == p.qos
  {
    var s, n := Packet(p) + tail, Remaining(p);
    assert s[1..] == Digits(n) + (Body(p) + tail);
    assert Pow128(4) == LENGTH_LIMIT by { assert Pow128(1) == 128 && Pow128(2) == 16384 && Pow128(3) == 2097152; }
    LengthRoundTrip(n, 4, Body(p) + tail);
    assert s[1 + |Digits(n)|..1 + |Digits(n)| + n] == Body(p);
  }

  /** The round trip: what is read back from a written packet is the packet itself, if and
      only if its topic has at most 65535 bytes. The id travels when the qos is not 0. */
  lemma PublishRoundTrip(p: Publish, tail: seq<Byte>, q: Publish)
    requires Legal(p)
    ensures var s := Packet(p) + tail;
            Holds(s) && TypeOf(s) == PUBLISH && (|p.topic| < 65536 ==> IdFits(s) && TopicFits(BodyOf(s)))
    ensures Says(Packet(p) + tail, q) ==>
              (q == (if p.qos > 0 then p else p.(packetid := 0)) <==> |p.topic| < 65536)
  {
    var s := Packet(p) + tail;
    PacketIsReadable(p, tail);
    BodyFits(p);
    if Says(s, q) {
      SameHeader(p, q);
      BodyDetermines(p, q);
    }
  }

  lemma BodyFits(p: Publish)
    ensures |p.topic| < 65536 ==>
              TopicFits(Body(p)) && (p.qos > 0 ==> 4 + Joined(Body(p)[0], Body(p)[1]) <= |Body(p)|)
  {
    var b := Body(p);
    BodyParts(p);
    Int16Joins(|p.topic|);
    assert b[0] == b[..2][0] && b[1] == b[..2][1];
  }

  lemma SameHeader(p: Publish, q: Publish)
    requires p.dup < 2 && p.retained < 2 && p.qos <= 3 && q.dup < 2 && q.retained < 2 && q.qos <= 3
    requires Header(p) == Header(q)
    ensures p.dup == q.dup && p.qos == q.qos && p.retained == q.retained
  {
  }

  /** A packet whose topic does not fit is reported as a success when its length field is
      one byte: here the topic claims 5 bytes and there are none. */
  method BadTopicLooksFine() returns (rc: nat, a: Answer)
    ensures rc == 1 && a.topicLen == 5 && a.p.topic == []
  {
    var buf := new Byte[4];
    buf[0], buf[1], buf[2], buf[3] := 0x30, 2, 0, 5;
    assert buf[..][1..] == [2, 0, 5];
    assert Announced(buf[..]) == Field(1, 2);
    assert BodyOf(buf[..]) == [0, 5];
    rc, a := DeserializePublish(buf);
  }

  /** A packet without room for its id is reported as a success too: here the qos is 1 and
      an empty topic is all there is.  The id is read from whatever follows. */
  method MissingIdLooksFine() returns (rc: nat, a: Answer)
    ensures rc == 1 && a.p.qos == 1 && a.payloadLen == -2
  {
    var buf := new Byte[4];
    buf[0], buf[1], buf[2], buf[3] := 0x32, 2, 0, 0;
    assert buf[..][1..] == [2, 0, 0];
    assert Announced(buf[..]) == Field(1, 2);
    assert BodyOf(buf[..]) == [0, 0];
    assert buf[0] == 0x32;
    rc, a := DeserializePublish(buf);
  }

  /** The topic that the reader gets is the counted form if there is one, and else the C
      string, byte by byte. */
  lemma TopicTravels(dup: nat, qos: nat, retained: nat, packetid: nat, topic: MqttString, payload: seq<Byte>, tail: seq<Byte>, q: Publish)
    requires Legal(Publish(dup, qos, retained, packetid, Text(topic), payload))
    requires StrLen(topic) == |Text(topic)| < 65536
    requires var s := Framed(Publish(dup, qos, retained, packetid, Text(topic), payload), CountedLength(qos, topic, payload)) + tail;
             Holds(s) && Says(s, q)
    ensures topic.lenstring != [] ==> q.topic == topic.lenstring
    ensures topic.lenstring == [] && topic.cstring.Some? ==> q.topic == topic.cstring.value
    ensures topic.lenstring == [] && topic.cstring.None? ==> q.topic == []
    ensures q.payload == payload && q.dup == dup && q.qos == qos && q.retained == retained
  {
    WritesPacket(dup, qos, retained, packetid, topic, payload);
    PublishRoundTrip(Publish(dup, qos, retained, packetid, Text(topic), payload), tail, q);
  }

  /** A packet of the standard, byte by byte, a header byte with all flags, and the standard's
      example of a length. */
  lemma OnePacket()
    ensures Packet(Publish(0, 1, 0, 10, [0x61, 0x2f], [0x78])) == [0x32, 7, 0, 2, 0x61, 0x2f, 0, 10, 0x78]
    ensures Header(Publish(1, 2, 1, 0, [], [])) == 0x3d && Digits(321) == [0xc1, 0x02]
  {
    var p := Publish(0, 1, 0, 10, [0x61, 0x2f], [0x78]);
    assert Digits(7) == [7];
    assert Digits(2) == [2];
    assert Int16(2) == [0, 2] && Int16(10) == [0, 10];
    assert Body(p) == [0, 2, 0x61, 0x2f, 0, 10, 0x78];
  }
}
