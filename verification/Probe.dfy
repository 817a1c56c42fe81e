/**
 scripts/mqtt_ble_probe.py: a second implementation of the packet framing, over a
 socket that delivers its bytes in arbitrary pieces. It is proved against the
 specification functions of module Mqtt; the two differ in the size limit only.
 */
module Probe {
  import opened Base
  import opened Mqtt

  const MAX_PACKET_BYTES: nat := 256 * 1024

  /** A connected socket: the bytes the peer has yet to send before closing. */
  class Socket {
    var rest: seq<byte>

    constructor (bytes: seq<byte>)
      ensures rest == bytes
    {
      rest := bytes;
    }

    /** Any non-empty piece of at most count bytes; empty only when the peer has closed. */
    method Recv(count: nat) returns (chunk: seq<byte>)
      requires count > 0
      modifies this
      ensures old(rest) == chunk + rest && |chunk| <= count
      ensures chunk == [] <==> old(rest) == []
    {
      if rest == [] {
        return [];
      }
      var k: nat :| 1 <= k <= count && k <= |rest|;
      chunk, rest := rest[..k], rest[k..];
    }
  }

  /** Exactly count bytes whatever the pieces, or an error with the stream exhausted. */
  method ReadExact(sock: Socket, count: nat) returns (data: Result<seq<byte>>)
    modifies sock
    ensures data.Ok? <==> count <= |old(sock.rest)|
    ensures data.Ok? ==> data.value == old(sock.rest)[..count] && sock.rest == old(sock.rest)[count..]
    ensures data.Err? ==> sock.rest == []
  {
    var read: seq<byte> := [];
    while |read| < count
      invariant read + sock.rest == old(sock.rest)
      invariant |read| <= count
    {
      var chunk := sock.Recv(count - |read|);
      if chunk == [] {
        return Err("MQTT connection closed");
      }
      read := read + chunk;
    }
    assert old(sock.rest)[..count] == read && old(sock.rest)[count..] == sock.rest;
    return Ok(read);
  }

  /** The probe writes the same length bytes as the client. */
  method EncodeVarint(value: nat) returns (out: seq<byte>)
    ensures out == EncodeLength(value)
  {
    out := [];
    var v := value;
    while true
      invariant out + EncodeLength(v) == EncodeLength(value)
      decreases v
    {
      var digit: int := v % 128;
      v := v / 128;
      if v != 0 {
        digit := digit + 128;
      }
      out := out + [digit];
      if v == 0 {
        return;
      }
    }
  }

  /** The two decoders accept the same byte strings with the same value and remainder. */
  method ReadVarint(sock: Socket) returns (remaining: Result<nat>)
    modifies sock
    ensures remaining.Ok? <==> DecodeLength(old(sock.rest), 4).result.Ok?
    ensures remaining.Ok? ==> Read(remaining, sock.rest) == DecodeLength(old(sock.rest), 4)
    ensures remaining.Err? ==> sock.rest == DecodeLength(old(sock.rest), 4).rest
  {
    AccumulatorIsPositional(sock.rest, 4, 0, 1);
    var multiplier: nat, value: nat, i: nat := 1, 0, 0;
    while true
      invariant 0 <= i < 4 && multiplier == Power128(i)
      invariant DecodeFrom(sock.rest, 4 - i, value, multiplier) == DecodeFrom(old(sock.rest), 4, 0, 1)
      decreases 4 - i
    {
      Powers(i);
      var digit := ReadExact(sock, 1);
      if digit.Err? {
        return Err(digit.message);
      }
      value := value + digit.value[0] % 128 * multiplier;
      if digit.value[0] < 128 {
        return Ok(value);
      }
      multiplier := multiplier * 128;
      i := i + 1;
      if multiplier > 128 * 128 * 128 {
        return Err("malformed MQTT remaining length");
      }
    }
  }

  lemma Powers(i: nat)
    requires i < 4
    ensures Power128(i + 1) == 128 * Power128(i)
    ensures Power128(i + 1) > 128 * 128 * 128 <==> i == 3
  {
    PowersOf128(i);
    assert Power128(1) == 128 && Power128(2) == 16384 && Power128(3) == 2097152 && Power128(4) == 268435456;
  }

  /** A packet within the probe's own limit is read exactly as the client reads it. */
  method ReadPacket(sock: Socket) returns (p: Result<Packet>)
    modifies sock
    ensures var client := DecodePacket(old(sock.rest));
      && (p.Ok? <==> client.result.Ok? && |client.result.value.payload| <= 262_144)
      && (p.Ok? ==> Read(p, sock.rest) == client)
  {
    var first := ReadExact(sock, 1);
    if first.Err? {
      return Err(first.message);
    }
    ghost var before := sock.rest;
    var remaining := ReadVarint(sock);
    if remaining.Err? {
      return Err(remaining.message);
    }
    assert Read(remaining, sock.rest) == DecodeLength(before, 4);
    if remaining.value > MAX_PACKET_BYTES {
      return Err("MQTT packet too large");
    }
    var payload := ReadExact(sock, remaining.value);
    if payload.Err? {
      return Err(payload.message);
    }
    return Ok(Packet(first.value[0], payload.value));
  }
}
