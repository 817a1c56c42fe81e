/**
 internal/mqttmini/client.go: the MQTT 3.1.1 wire layer (sections 2.2, 2.2.3, 3.3
 and 3.8 of the standard) over an untimed byte stream. Go's int has 32 bits on the target, so
 the decoder's counters are declared that wide.
 */
module Mqtt {
  import opened Base
  import Text

  newtype int32 = n: int | -0x8000_0000 <= n < 0x8000_0000

  const MAX_PACKET_SIZE: nat := 1024 * 1024

  /** The largest remaining length four bytes can carry. */
  const MAX_LENGTH: nat := 268_435_455

  datatype Packet = Packet(header: byte, payload: seq<byte>)

  // ------------------------------------------------------------ byte streams

  /** An io.Reader over the bytes still to come. */
  class Stream {
    var rest: seq<byte>

    constructor (bytes: seq<byte>)
      ensures rest == bytes
    {
      rest := bytes;
    }

    /** io.ReadFull: n bytes, or failure with the stream drained. */
    method ReadFull(n: nat) returns (ok: bool, bytes: seq<byte>)
      modifies this
      ensures ok <==> n <= |old(rest)|
      ensures ok ==> bytes == old(rest)[..n] && rest == old(rest)[n..]
      ensures !ok ==> bytes == old(rest) && rest == []
    {
      ok := n <= |rest|;
      if ok {
        bytes, rest := rest[..n], rest[n..];
      } else {
        bytes, rest := rest, [];
      }
    }
  }

  /** What a parser makes of a stream: a result and what it leaves unread. */
  datatype Read<+T> = Read(result: Result<T>, rest: seq<byte>)

  // -------------------------------------------------------- remaining length

  function EncodeLength(n: nat): seq<byte> {
    if n < 128 then [n] else [n % 128 + 128] + EncodeLength(n / 128)
  }

  method EncodeRemainingLength(n: nat) returns (out: seq<byte>)
    ensures out == EncodeLength(n)
  {
    out := [];
    var m := n;
    while true
      invariant out + EncodeLength(m) == EncodeLength(n)
      decreases m
    {
      var encoded: int := m % 128;
      ghost var before := m;
      m := m / 128;
      if m > 0 {
        encoded := encoded + 128;
      }
      out := out + [encoded];
      if m == 0 {
        return;
      }
    }
  }

  /** The value of a remaining length with at most `left` bytes to go. */
  function DecodeLength(bytes: seq<byte>, left: nat): Read<nat>
    decreases left
  {
    if left == 0 then Read(Err("malformed MQTT remaining length"), bytes)
    else if bytes == [] then Read(Err("EOF"), [])
    else if bytes[0] < 128 then Read(Ok(bytes[0]), bytes[1..])
    else
      var more := DecodeLength(bytes[1..], left - 1);
      if more.result.Ok? then Read(Ok(bytes[0] - 128 + 128 * more.result.value), more.rest) else more
  }

  /** The same with the running value and multiplier of the decoding loop. */
  function DecodeFrom(bytes: seq<byte>, left: nat, value: nat, multiplier: nat): Read<nat>
    decreases left
  {
    if left == 0 then Read(Err("malformed MQTT remaining length"), bytes)
    else if bytes == [] then Read(Err("EOF"), [])
    else if bytes[0] < 128 then Read(Ok(value + bytes[0] % 128 * multiplier), bytes[1..])
    else DecodeFrom(bytes[1..], left - 1, value + bytes[0] % 128 * multiplier, multiplier * 128)
  }

  lemma {:induction false} AccumulatorIsPositional(bytes: seq<byte>, left: nat, value: nat, multiplier: nat)
    ensures DecodeFrom(bytes, left, value, multiplier) ==
      var d := DecodeLength(bytes, left);
      if d.result.Ok? then Read(Ok(value + d.result.value * multiplier), d.rest) else d
    decreases left
  {
    if left > 0 && bytes != [] {
      var digit := bytes[0] % 128;
      assert digit == if bytes[0] < 128 then bytes[0] else bytes[0] - 128;
      if bytes[0] >= 128 {
        var more := DecodeLength(bytes[1..], left - 1);
        AccumulatorIsPositional(bytes[1..], left - 1, value + digit * multiplier, multiplier * 128);
        if more.result.Ok? {
          Distribute(digit, more.result.value, multiplier);
        }
      }
    }
  }

  lemma Distribute(digit: nat, value: nat, multiplier: nat)
    ensures (digit + 128 * value) * multiplier == digit * multiplier + value * (multiplier * 128)
  {
  }

  function Power128(k: nat): nat {
    if k == 0 then 1 else 128 * Power128(k - 1)
  }

  /** One digit added, in 32 bits. */
  method AddDigit(value: int32, b: byte, multiplier: int32, ghost i: nat) returns (sum: int32)
    requires i < 4 && multiplier as int == Power128(i) && 0 <= value as int < Power128(i)
    ensures sum as int == value as int + b % 128 * (multiplier as int)
    ensures 0 <= sum as int < Power128(i + 1) <= MAX_LENGTH + 1
  {
    DigitFits(i, value as int, b % 128);
    sum := value + (b % 128) as int32 * multiplier;
  }

  method NextMultiplier(multiplier: int32, ghost i: nat) returns (next: int32)
    requires i < 4 && multiplier as int == Power128(i)
    ensures next as int == multiplier as int * 128 == Power128(i + 1)
  {
    PowersOf128(i);
    next := multiplier * 128;
  }

  /** The loop's counters never overflow a 32-bit int, and at most four bytes are taken. */
  method DecodeRemainingLength(r: Stream) returns (length: Result<nat>)
    modifies r
    ensures Read(length, r.rest) == DecodeLength(old(r.rest), 4)
    ensures length.Ok? ==> length.value <= MAX_LENGTH
  {
    AccumulatorIsPositional(r.rest, 4, 0, 1);
    var multiplier: int32, value: int32 := 1, 0;
    for i := 0 to 4
      invariant multiplier as int == Power128(i) && 0 <= value as int < Power128(i)
      invariant DecodeFrom(r.rest, 4 - i, value as int, multiplier as int) == DecodeFrom(old(r.rest), 4, 0, 1)
    {
      var ok, b := r.ReadFull(1);
      if !ok {
        return Err("EOF");
      }
      value := AddDigit(value, b[0], multiplier, i);
      if b[0] < 128 {
        return Ok(value as int);
      }
      multiplier := NextMultiplier(multiplier, i);
    }
    return Err("malformed MQTT remaining length");
  }

  lemma DigitFits(i: nat, value: nat, digit: nat)
    requires i < 4 && value < Power128(i) && digit < 128
    ensures 0 <= digit * Power128(i) && value + digit * Power128(i) < Power128(i + 1) <= MAX_LENGTH + 1
  {
    PowersOf128(i);
    assert digit * Power128(i) <= 127 * Power128(i);
  }

  lemma PowersOf128(i: nat)
    requires i < 4
    ensures Power128(i) in {1, 128, 16384, 2097152} && Power128(i + 1) == 128 * Power128(i)
  {
    assert Power128(1) == 128 && Power128(2) == 16384 && Power128(3) == 2097152;
  }

  lemma {:induction false} EncodedSize(n: nat, k: nat)
    requires k > 0
    ensures |EncodeLength(n)| <= k <==> n < Power128(k)
  {
    if n >= 128 {
      if k > 1 {
        EncodedSize(n / 128, k - 1);
      } else {
        assert Power128(1) == 128 && |EncodeLength(n / 128)| > 0;
      }
    } else {
      PowerPositive(k - 1);
    }
  }

  lemma {:induction false} PowerPositive(k: nat)
    ensures Power128(k) >= 1
  {
    if k == 0 {
    } else {
      PowerPositive(k - 1);
    }
  }

  lemma {:induction false} DecodeEncodeAny(n: nat, tail: seq<byte>, left: nat)
    requires |EncodeLength(n)| <= left
    ensures DecodeLength(EncodeLength(n) + tail, left) == Read(Ok(n), tail)
  {
    var bytes := EncodeLength(n) + tail;
    if n < 128 {
      assert bytes[1..] == tail;
    } else {
      DecodeEncodeAny(n / 128, tail, left - 1);
      assert bytes[1..] == EncodeLength(n / 128) + tail;
    }
  }

  /** Decoding inverts encoding, whatever follows, exactly for the lengths of section 2.2.3. */
  lemma DecodeEncode(n: nat, tail: seq<byte>)
    ensures DecodeLength(EncodeLength(n) + tail, 4) == Read(Ok(n), tail) <==> n <= 268_435_455
  {
    EncodedSize(n, 4);
    assert Power128(4) == 128 * Power128(3) == MAX_LENGTH + 1 by { PowersOf128(3); }
    if n <= MAX_LENGTH {
      DecodeEncodeAny(n, tail, 4);
    } else {
      DecodeBounds(EncodeLength(n) + tail, 4);
    }
  }

  /** What was consumed: between the minimal encoding's size and `left` bytes, of a value that fits. */
  lemma {:induction false} DecodeBounds(bytes: seq<byte>, left: nat)
    ensures var d := DecodeLength(bytes, left);
      && |d.rest| <= |bytes| && d.rest == bytes[|bytes| - |d.rest|..]
      && |bytes| - |d.rest| <= left
      && (d.result.Ok? ==> d.result.value < Power128(left) && |EncodeLength(d.result.value)| <= |bytes| - |d.rest|)
  {
    if left > 0 && bytes != [] {
      DecodeBounds(bytes[1..], left - 1);
      PowerPositive(left - 1);
    }
  }

  /** Every accepted encoding is at least as long as EncodeLength's: those are minimal. */
  lemma EncodingsAreMinimal(bytes: seq<byte>, n: nat, tail: seq<byte>)
    requires DecodeLength(bytes + tail, 4) == Read(Ok(n), tail)
    ensures |EncodeLength(n)| <= |bytes| <= 4 && n <= MAX_LENGTH
  {
    DecodeBounds(bytes + tail, 4);
    assert Power128(4) == 128 * Power128(3) == MAX_LENGTH + 1 by { PowersOf128(3); }
  }

  // -------------------------------------------- the layout of section 2.2.3

  /** Seven bits a byte, the least significant first. */
  function Value(bytes: seq<byte>): nat {
    if bytes == [] then 0 else bytes[0] % 128 + 128 * Value(bytes[1..])
  }

  /** The top bit is set in every byte but the last. */
  predicate IsLength(bytes: seq<byte>) {
    bytes != [] && forall i :: 0 <= i < |bytes| ==> (bytes[i] >= 128 <==> i < |bytes| - 1)
  }

  lemma {:induction false} EncodedIsLength(n: nat)
    ensures IsLength(EncodeLength(n)) && Value(EncodeLength(n)) == n
  {
    if n >= 128 {
      var rest := EncodeLength(n / 128);
      EncodedIsLength(n / 128);
      assert EncodeLength(n)[1..] == rest;
      forall i | 0 <= i < |rest| + 1 ensures EncodeLength(n)[i] >= 128 <==> i < |rest| {
        assert i > 0 ==> EncodeLength(n)[i] == rest[i - 1];
      }
    } else {
      assert EncodeLength(n)[1..] == [];
    }
  }

  /** A length of up to `left` bytes is read with its value, whatever follows; a longer one is malformed. */
  lemma {:induction false} LengthIsRead(bytes: seq<byte>, tail: seq<byte>, left: nat)
    requires IsLength(bytes)
    ensures if |bytes| <= left then DecodeLength(bytes + tail, left) == Read(Ok(Value(bytes)), tail)
            else DecodeLength(bytes + tail, left).result.Err?
    decreases left
  {
    var all := bytes + tail;
    if left > 0 {
      assert all[0] == bytes[0];
      if |bytes| > 1 {
        assert all[1..] == bytes[1..] + tail;
        LengthIsRead(bytes[1..], tail, left - 1);
      } else {
        assert all[1..] == tail && bytes[1..] == [];
      }
    }
  }

  /** And whatever is read as a length is one. */
  lemma {:induction false} ReadIsLength(bytes: seq<byte>, left: nat) returns (k: nat)
    requires DecodeLength(bytes, left).result.Ok?
    ensures k <= |bytes| && k <= left && IsLength(bytes[..k])
    ensures DecodeLength(bytes, left) == Read(Ok(Value(bytes[..k])), bytes[k..])
    decreases left
  {
    if bytes[0] < 128 {
      k := 1;
      assert bytes[..1][1..] == [];
    } else {
      k := ReadIsLength(bytes[1..], left - 1);
      k := k + 1;
      assert bytes[..k][1..] == bytes[1..][..k - 1] && bytes[1..][k - 1..] == bytes[k..];
      forall i | 0 <= i < k ensures bytes[..k][i] >= 128 <==> i < k - 1 {
        assert i > 0 ==> bytes[..k][i] == bytes[1..][..k - 1][i - 1];
      }
    }
  }

  // ----------------------------------------------------------------- packets

  function Encoded(p: Packet): seq<byte> {
    [p.header] + EncodeLength(|p.payload|) + p.payload
  }

  function EncodedAll(ps: seq<Packet>): seq<byte> {
    if ps == [] then [] else Encoded(ps[0]) + EncodedAll(ps[1..])
  }

  function DecodePacket(bytes: seq<byte>): Read<Packet> {
    if bytes == [] then Read(Err("EOF"), [])
    else
      var length := DecodeLength(bytes[1..], 4);
      if length.result.Err? then Read(Err(length.result.message), length.rest)
      else if length.result.value > MAX_PACKET_SIZE then Read(Err("MQTT packet too large"), length.rest)
      else if length.result.value > |length.rest| then Read(Err("EOF"), [])
      else Read(Ok(Packet(bytes[0], length.rest[..length.result.value])), length.rest[length.result.value..])
  }

  /** An io.Writer. */
  class Sink {
    var written: seq<byte>

    constructor ()
      ensures written == []
    {
      written := [];
    }
  }

  method WritePacket(w: Sink, header: byte, payload: seq<byte>) returns (ok: bool)
    modifies w
    ensures ok <==> |payload| <= MAX_PACKET_SIZE
    ensures w.written == old(w.written) + if ok then Encoded(Packet(header, payload)) else []
  {
    if |payload| > MAX_PACKET_SIZE {
      return false;
    }
    var packet := [header];
    var length := EncodeRemainingLength(|payload|);
    packet := packet + length;
    packet := packet + payload;
    w.written := w.written + packet;
    return true;
  }

  method ReadPacket(r: Stream) returns (p: Result<Packet>)
    modifies r
    ensures Read(p, r.rest) == DecodePacket(old(r.rest))
  {
    var ok, first := r.ReadFull(1);
    if !ok {
      return Err("EOF");
    }
    var length := DecodeRemainingLength(r);
    if length.Err? {
      return Err(length.message);
    }
    if length.value > MAX_PACKET_SIZE {
      return Err("MQTT packet too large");
    }
    var payload;
    ok, payload := r.ReadFull(length.value);
    if !ok {
      return Err("EOF");
    }
    return Ok(Packet(first[0], payload));
  }

  /** A packet is read back, with what follows it untouched, iff writePacket accepts it. */
  lemma PacketRoundTrip(p: Packet, tail: seq<byte>)
    ensures DecodePacket(Encoded(p) + tail) == Read(Ok(p), tail) <==> |p.payload| <= 1_048_576
  {
    var n := |p.payload|;
    var bytes := Encoded(p) + tail;
    assert bytes[1..] == EncodeLength(n) + (p.payload + tail);
    DecodeEncode(n, p.payload + tail);
    if n <= MAX_PACKET_SIZE {
      assert (p.payload + tail)[..n] == p.payload && (p.payload + tail)[n..] == tail;
    }
  }

  /** These bytes begin with this packet: its header, its length on at most four bytes, its payload. */
  predicate BeginsWith(bytes: seq<byte>, p: Packet, k: nat) {
    && 1 <= k <= 4 && 1 + k + |p.payload| <= |bytes|
    && bytes[0] == p.header && IsLength(bytes[1..1 + k]) && Value(bytes[1..1 + k]) == |p.payload|
    && bytes[1 + k..1 + k + |p.payload|] == p.payload
  }

  /** What writePacket appends begins with the packet, and is nothing else. */
  lemma EncodedBegins(p: Packet)
    requires |p.payload| <= 1_048_576
    ensures exists k: nat :: BeginsWith(Encoded(p), p, k) && |Encoded(p)| == 1 + k + |p.payload|
  {
    var length := EncodeLength(|p.payload|);
    EncodedIsLength(|p.payload|);
    EncodedSize(|p.payload|, 4);
    PowersOf128(3);
    assert Encoded(p)[1..1 + |length|] == length;
    assert BeginsWith(Encoded(p), p, |length|);
  }

  lemma SliceOfRest(bytes: seq<byte>, a: nat, n: nat)
    requires a + n <= |bytes|
    ensures bytes[a..][..n] == bytes[a..a + n] && bytes[a..][n..] == bytes[a + n..]
  {
  }

  lemma BegunIsRead(bytes: seq<byte>, p: Packet, k: nat)
    requires |p.payload| <= 1_048_576 && BeginsWith(bytes, p, k)
    ensures DecodePacket(bytes) == Read(Ok(p), bytes[1 + k + |p.payload|..])
  {
    SliceOfRest(bytes, 1, k);
    SliceOfRest(bytes, 1 + k, |p.payload|);
    LengthIsRead(bytes[1..1 + k], bytes[1 + k..], 4);
    assert bytes[1..] == bytes[1..1 + k] + bytes[1 + k..];
  }

  lemma ReadIsBegun(bytes: seq<byte>, p: Packet, tail: seq<byte>) returns (k: nat)
    requires DecodePacket(bytes) == Read(Ok(p), tail)
    ensures |p.payload| <= 1_048_576 && BeginsWith(bytes, p, k) && bytes[1 + k + |p.payload|..] == tail
  {
    k := ReadIsLength(bytes[1..], 4);
    SliceOfRest(bytes, 1, k);
    assert DecodeLength(bytes[1..], 4) == Read(Ok(|p.payload|), bytes[1 + k..]);
    SliceOfRest(bytes, 1 + k, |p.payload|);
  }

  /** A packet is read off a stream iff the stream begins with it and it is within the limit, minimal length or not. */
  lemma ReadIff(bytes: seq<byte>, p: Packet, tail: seq<byte>)
    ensures DecodePacket(bytes) == Read(Ok(p), tail) <==>
      |p.payload| <= 1_048_576 && exists k: nat :: BeginsWith(bytes, p, k) && bytes[1 + k + |p.payload|..] == tail
  {
    if DecodePacket(bytes) == Read(Ok(p), tail) {
      var k := ReadIsBegun(bytes, p, tail);
    }
    if |p.payload| <= 1_048_576 {
      if k: nat :| BeginsWith(bytes, p, k) && bytes[1 + k + |p.payload|..] == tail {
        BegunIsRead(bytes, p, k);
      }
    }
  }

  /** Repeated reading of a stream, until it fails or is empty. */
  function DecodeAll(bytes: seq<byte>): (seq<Packet>, seq<byte>)
    decreases |bytes|
  {
    var next := DecodePacket(bytes);
    if next.result.Ok? && |next.rest| < |bytes| then
      var (ps, rest) := DecodeAll(next.rest);
      ([next.result.value] + ps, rest)
    else ([], bytes)
  }

  /** The read loop: every packet of the stream up to the first that cannot be read. */
  method ReadAll(r: Stream) returns (ps: seq<Packet>)
    modifies r
    ensures ps == DecodeAll(old(r.rest)).0
  {
    ps := [];
    while true
      invariant ps + DecodeAll(r.rest).0 == DecodeAll(old(r.rest)).0
      decreases |r.rest|
    {
      ghost var before := r.rest;
      DecodeConsumes(before);
      var p := ReadPacket(r);
      if p.Err? {
        return;
      }
      ps := ps + [p.value];
    }
  }

  lemma DecodeConsumes(bytes: seq<byte>)
    ensures DecodePacket(bytes).result.Ok? ==> |DecodePacket(bytes).rest| < |bytes|
  {
    if bytes != [] {
      DecodeBounds(bytes[1..], 4);
    }
  }

  /** Any sequence of packets comes back exactly, with nothing left over. */
  lemma {:induction false} StreamRoundTrip(ps: seq<Packet>)
    requires forall p :: p in ps ==> |p.payload| <= MAX_PACKET_SIZE
    ensures DecodeAll(EncodedAll(ps)) == (ps, [])
  {
    if ps == [] {
    } else {
      PacketRoundTrip(ps[0], EncodedAll(ps[1..]));
      DecodeConsumes(EncodedAll(ps));
      assert [ps[0]] + ps[1..] == ps;
      StreamRoundTrip(ps[1..]);
    }
  }

  // ----------------------------------------------------------------- publish

  function U16(bytes: seq<byte>): nat
    requires |bytes| >= 2
  {
    (bytes[0] as int) * 256 + bytes[1]
  }

  function Big16(n: nat): seq<byte> {
    [n / 256 % 256, n % 256]
  }

  datatype Publish = Publish(topic: seq<byte>, message: seq<byte>, packetID: nat, qos: int)

  function Qos(header: byte): int {
    header / 2 % 4
  }

  /** The QoS is in bits 1 and 2 of the header, between DUP and RETAIN. */
  lemma QosBits(kind: nat, dup: nat, qos: nat, retain: nat, header: byte)
    requires kind < 16 && dup < 2 && qos < 4 && retain < 2 && header == 16 * kind + 8 * dup + 2 * qos + retain
    ensures Qos(header) == qos
  {
  }

  /** The variable header and payload of a PUBLISH, as section 3.3 of MQTT 3.1.1 lays them out. */
  function PublishBody(p: Publish): seq<byte> {
    Big16(|p.topic|) + (p.topic + (if p.qos == 1 then Big16(p.packetID) + p.message else p.message))
  }

  /** What this client accepts: a named topic, QoS 0 or 1, an ID exactly with QoS 1. */
  predicate Acceptable(p: Publish) {
    && 0 < |p.topic| < 65536
    && (p.qos == 0 || p.qos == 1)
    && p.packetID < 65536 && (p.qos == 0 ==> p.packetID == 0)
  }

  lemma U16Big16(n: nat, rest: seq<byte>)
    requires n < 65536
    ensures U16(Big16(n) + rest) == n && (Big16(n) + rest)[2..] == rest
  {
  }

  lemma Big16U16(bytes: seq<byte>)
    requires |bytes| >= 2
    ensures bytes == Big16(U16(bytes)) + bytes[2..] && U16(bytes) < 65536
  {
    assert Big16(U16(bytes)) == [bytes[0], bytes[1]];
  }

  /** The part of a PUBLISH body after its topic. */
  function AfterTopic(p: Publish): seq<byte> {
    if p.qos == 1 then Big16(p.packetID) + p.message else p.message
  }

  lemma BodyParts(p: Publish, payload: seq<byte>)
    requires Acceptable(p) && payload == PublishBody(p)
    ensures |payload| >= 2 && U16(payload) == |p.topic| && |payload| >= 2 + |p.topic|
    ensures payload[2..2 + |p.topic|] == p.topic && payload[2 + |p.topic|..] == AfterTopic(p)
  {
    U16Big16(|p.topic|, p.topic + AfterTopic(p));
    assert payload[2..] == p.topic + AfterTopic(p);
    assert payload[2..][..|p.topic|] == p.topic && payload[2..][|p.topic|..] == AfterTopic(p);
  }

  lemma PartsBody(p: Publish, payload: seq<byte>)
    requires Acceptable(p) && 2 <= |payload| && U16(payload) == |p.topic| && 2 + |p.topic| <= |payload|
    requires payload[2..2 + |p.topic|] == p.topic && payload[2 + |p.topic|..] == AfterTopic(p)
    ensures payload == PublishBody(p)
  {
    Big16U16(payload);
    assert payload[2..] == payload[2..2 + |p.topic|] + payload[2 + |p.topic|..];
  }

  /** Accepts exactly the bodies of acceptable messages with the header's QoS, and returns the message. */
  method ParsePublish(header: byte, payload: seq<byte>) returns (r: Result<Publish>)
    ensures r.Ok? ==> Acceptable(r.value) && r.value.qos == Qos(header) && payload == PublishBody(r.value)
    ensures r.Err? ==> forall p :: Acceptable(p) && p.qos == Qos(header) ==> payload != PublishBody(p)
    ensures r.Ok? <==>
      && |payload| >= 2 && 0 < payload[0] as int * 256 + payload[1] <= |payload| - 2
      && (Qos(header) == 0 || (Qos(header) == 1 && payload[0] as int * 256 + payload[1] + 4 <= |payload|))
    ensures r.Ok? ==>
      var end := payload[0] as int * 256 + payload[1] + 2;
      && r.value.topic == payload[2..end]
      && r.value.qos == Qos(header)
      && if Qos(header) == 1
         then r.value.packetID == payload[end] as int * 256 + payload[end + 1] && r.value.message == payload[end + 2..]
         else r.value.packetID == 0 && r.value.message == payload[end..]
  {
    forall p | Acceptable(p) && payload == PublishBody(p) { BodyParts(p, payload); }
    if |payload| < 2 {
      return Err("short MQTT PUBLISH packet");
    }
    var topicLen := U16(payload);
    if topicLen == 0 || |payload| < 2 + topicLen {
      return Err("invalid MQTT PUBLISH topic");
    }
    Big16U16(payload);
    var topic := payload[2..2 + topicLen];
    var pos := 2 + topicLen;
    var qos := Qos(header);
    if qos > 1 {
      return Err("unsupported MQTT QoS");
    }
    var packetID := 0;
    if qos == 1 {
      if |payload| < pos + 2 {
        return Err("missing MQTT PUBLISH packet id");
      }
      Big16U16(payload[pos..]);
      packetID := U16(payload[pos..]);
      pos := pos + 2;
    }
    r := Ok(Publish(topic, payload[pos..], packetID, qos));
    PartsBody(r.value, payload);
  }

  /** The layout determines the message: what ParsePublish returns is the only possible answer. */
  lemma PublishBodyInjective(p: Publish, q: Publish)
    requires Acceptable(p) && Acceptable(q) && p.qos == q.qos && PublishBody(p) == PublishBody(q)
    ensures p == q
  {
    BodyParts(p, PublishBody(p));
    BodyParts(q, PublishBody(p));
    if p.qos == 1 {
      U16Big16(p.packetID, p.message);
      U16Big16(q.packetID, q.message);
    }
  }

  // --------------------------------------------------------------- subscribe

  /** Strings as their bytes. writeUTF8 keeps sixteen bits of the length, whatever the string. */
  function Topics(topics: seq<seq<byte>>): seq<byte> {
    if topics == [] then [] else Big16(|topics[0]|) + topics[0] + [0] + Topics(topics[1..])
  }

  method SubscribePayload(packetID: nat, topics: seq<seq<byte>>) returns (payload: seq<byte>)
    requires packetID < 65536
    ensures payload == [packetID / 256, packetID % 256] + Topics(topics)
  {
    payload := Big16(packetID);
    for i := 0 to |topics|
      invariant payload + Topics(topics[i..]) == Big16(packetID) + Topics(topics)
    {
      payload := payload + Big16(|topics[i]|) + topics[i] + [0];
      assert topics[i..][1..] == topics[i + 1..];
    }
  }

  /** A broker's reading of topic filters that each request QoS 0, by section 3.8.3 of MQTT 3.1.1. */
  function ReadTopics(bytes: seq<byte>): Option<seq<seq<byte>>>
    decreases |bytes|
  {
    if bytes == [] then Some([])
    else if |bytes| < 3 then None
    else
      var n := bytes[0] as int * 256 + bytes[1];
      if |bytes| < 3 + n || bytes[2 + n] != 0 then None
      else
        var more := ReadTopics(bytes[3 + n..]);
        if more.None? then None else Some([bytes[2..2 + n]] + more.value)
  }

  lemma ReadTopic(t: seq<byte>, rest: seq<byte>)
    requires |t| < 65536
    ensures ReadTopics(Big16(|t|) + t + [0] + rest) ==
      if ReadTopics(rest).Some? then Some([t] + ReadTopics(rest).value) else None
  {
    var tail := t + [0] + rest;
    var bytes := Big16(|t|) + tail;
    U16Big16(|t|, tail);
    assert bytes == Big16(|t|) + t + [0] + rest;
    assert bytes[2 + |t|] == tail[|t|] == 0;
    assert bytes[2..2 + |t|] == tail[..|t|] == t;
    assert bytes[3 + |t|..] == tail[|t| + 1..] == rest;
  }

  lemma {:induction false} ReadTopicsFit(bytes: seq<byte>)
    ensures ReadTopics(bytes).Some? ==> forall t :: t in ReadTopics(bytes).value ==> |t| < 65536
    decreases |bytes|
  {
    if ReadTopics(bytes).Some? && bytes != [] {
      ReadTopicsFit(bytes[3 + U16(bytes)..]);
      U16Bound(bytes);
    }
  }

  lemma U16Bound(bytes: seq<byte>)
    requires |bytes| >= 2
    ensures U16(bytes) < 65536
  {
  }

  /** A broker reads back exactly the requested topics iff each fits its 16-bit length field. */
  lemma {:induction false} SubscriptionRoundTrip(topics: seq<seq<byte>>)
    ensures ReadTopics(Topics(topics)) == Some(topics) <==> forall t :: t in topics ==> |t| < 65536
  {
    ReadTopicsFit(Topics(topics));
    if topics != [] && forall t :: t in topics ==> |t| < 65536 {
      SubscriptionRoundTrip(topics[1..]);
      ReadTopic(topics[0], Topics(topics[1..]));
      assert [topics[0]] + topics[1..] == topics;
    }
  }

  // ---------------------------------------------------------------- topics

  /** Trimmed, without blanks and repeats, in order of first occurrence. */
  function Normalized(topics: seq<string>): seq<string> {
    if topics == [] then []
    else
      var before, topic := Normalized(topics[..|topics| - 1]), Text.TrimSpace(topics[|topics| - 1]);
      if topic == "" || topic in before then before else before + [topic]
  }

  method NormalizedTopics(topics: seq<string>) returns (out: seq<string>)
    ensures out == Normalized(topics)
  {
    var seen: set<string> := {};
    out := [];
    for i := 0 to |topics|
      invariant out == Normalized(topics[..i])
      invariant forall t :: t in seen <==> t in out
    {
      assert topics[..i + 1][..i] == topics[..i];
      var topic := Text.TrimSpace(topics[i]);
      if topic == "" || topic in seen {
        continue;
      }
      seen := seen + {topic};
      out := out + [topic];
    }
    assert topics[..|topics|] == topics;
  }

  /** Longer lists only append, so the topics stay in the order of their first occurrence. */
  lemma {:induction false} NormalizedPrefix(topics: seq<string>, i: nat)
    requires i <= |topics|
    ensures Normalized(topics[..i]) <= Normalized(topics)
    decreases |topics|
  {
    var n := |topics| - 1;
    if i <= n {
      NormalizedPrefix(topics[..n], i);
      assert topics[..n][..i] == topics[..i];
    } else {
      assert topics[..i] == topics;
    }
  }

  /** The client subscribes once to each non-blank topic: no SUBSCRIBE repeats a filter. */
  lemma {:induction false} NormalizedTopicsOnce(topics: seq<string>, t: string)
    ensures t in Normalized(topics) <==> t != "" && exists i :: 0 <= i < |topics| && Text.TrimSpace(topics[i]) == t
    ensures forall i, j :: 0 <= i < j < |Normalized(topics)| ==> Normalized(topics)[i] != Normalized(topics)[j]
  {
    if topics == [] {
    } else {
      var n := |topics| - 1;
      NormalizedTopicsOnce(topics[..n], t);
      assert forall i :: 0 <= i < n ==> topics[..n][i] == topics[i];
      if exists i :: 0 <= i < |topics| && Text.TrimSpace(topics[i]) == t {
        var i :| 0 <= i < |topics| && Text.TrimSpace(topics[i]) == t;
        assert i < n ==> Text.TrimSpace(topics[..n][i]) == t;
      }
    }
  }
}
