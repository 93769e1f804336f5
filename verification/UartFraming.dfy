/** Packets on the loader's UART: one channel byte, one length byte, and at most 27 payload bytes,
    built and parsed in fixed buffers that are reused from frame to frame. */
module UartFraming {
  import opened Words

  const MAX_PAYLOAD_LEN: nat := 27
  const MAX_MESSAGE_LEN: nat := 29

  datatype Packet = Packet(channel: Byte, payload: seq<Byte>)

  predicate Fits(p: Packet) {
    |p.payload| <= MAX_PAYLOAD_LEN
  }

  predicate AllFit(ps: seq<Packet>) {
    forall i :: 0 <= i < |ps| ==> Fits(ps[i])
  }

  function Encode(p: Packet): seq<Byte>
    requires Fits(p)
  {
    [p.channel, |p.payload|] + p.payload
  }

  function EncodeAll(ps: seq<Packet>): seq<Byte>
    requires AllFit(ps)
  {
    if ps == [] then [] else Encode(ps[0]) + EncodeAll(ps[1..])
  }

  /** What the decoder makes of the bytes queued for it: it waits for more, it dies of an exception
      (a negative length, or a byte stored past the buffer), or it delivers a packet. */
  datatype Decoded = Blocked | Died | Delivered(packet: Packet, rest: seq<Byte>)

  function Decode(rx: seq<Byte>): Decoded {
    if |rx| < 2 then Blocked
    else
      var count: int := rx[1];
      if count < 0 then Died
      else if count > MAX_PAYLOAD_LEN then (if |rx| > 2 + MAX_PAYLOAD_LEN then Died else Blocked)
      else if |rx| < 2 + count then Blocked
      else Delivered(Packet(rx[0], rx[2..2 + count]), rx[2 + count..])
  }

  /** All packets the decoder delivers before it blocks or dies, and what is then left. */
  function DecodeAll(rx: seq<Byte>): (r: (seq<Packet>, seq<Byte>))
    ensures !Decode(r.1).Delivered?
    decreases |rx|
  {
    match Decode(rx)
    case Delivered(p, rest) =>
      var (ps, left) := DecodeAll(rest);
      ([p] + ps, left)
    case _ => ([], rx)
  }

  // ----- The packet object -----

  class PobicosPacket {
    var counter: Byte
    const buffer: array<Byte>

    ghost predicate Valid()
      reads this
    {
      buffer.Length == MAX_MESSAGE_LEN && 0 <= counter as int <= MAX_PAYLOAD_LEN
    }

    ghost function Payload(): seq<Byte>
      reads this, buffer
      requires Valid()
    {
      buffer[2..2 + counter as int]
    }

    /** A packet to be sent. */
    constructor OnChannel(channel: int)
      ensures Valid() && fresh(buffer) && counter == 0 && buffer[0] == ToByte(channel)
    {
      counter := 0;
      buffer := new Byte[MAX_MESSAGE_LEN](_ => 0);
      new;
      buffer[0] := ToByte(channel);
    }

    /** A packet copied out of a received message. */
    constructor FromMessage(message: array<Byte>)
      requires message.Length == MAX_MESSAGE_LEN
      ensures buffer.Length == MAX_MESSAGE_LEN && fresh(buffer)
      ensures buffer[..] == message[..] && counter == message[1]
    {
      buffer := new Byte[MAX_MESSAGE_LEN](_ => 0);
      new;
      for i := 0 to message.Length
        invariant buffer[..i] == message[..i] && fresh(buffer)
      {
        buffer[i] := message[i];
      }
      assert buffer[..] == buffer[..29] && message[..] == message[..29];
      counter := buffer[1];
    }

    /** `append(byte)`; a full buffer throws, with the counter already advanced. */
    method Append(b: Byte) returns (ok: bool)
      requires Valid()
      modifies this, buffer
      ensures ok <==> old(counter) as int < MAX_PAYLOAD_LEN
      ensures ok ==> Valid() && counter as int == old(counter) as int + 1 && Payload() == old(Payload()) + [b]
      ensures buffer[0] == old(buffer[0])
    {
      var at := 2 + counter as int;
      counter := ToByte(counter as int + 1);
      if at >= buffer.Length {
        return false;
      }
      buffer[at] := b;
      return true;
    }

    method AppendAll(bs: seq<Byte>) returns (ok: bool)
      requires Valid() && counter == 0
      modifies this, buffer
      ensures ok <==> |bs| <= MAX_PAYLOAD_LEN
      ensures ok ==> Valid() && Payload() == bs
      ensures buffer[0] == old(buffer[0])
    {
      for i := 0 to |bs|
        invariant Valid() && counter as int == i && Payload() == bs[..i]
        invariant buffer[0] == old(buffer[0])
      {
        var appended := Append(bs[i]);
        if !appended {
          return false;
        }
      }
      return true;
    }

    method GetBuffer() returns (copy: array<Byte>)
      requires Valid()
      ensures fresh(copy)
      ensures copy[..] == [buffer[0], counter] + Payload()
    {
      var n := 2 + counter as int;
      copy := new Byte[n](_ => 0);
      for i := 0 to n
        invariant copy[..i] == buffer[..i]
      {
        copy[i] := buffer[i];
      }
      copy[1] := counter;
      assert copy[..] == [copy[0], copy[1]] + copy[2..];
      assert copy[2..] == buffer[2..n];
    }

    /** `getContents`; a negative counter throws. */
    method GetContents() returns (contents: Option<seq<Byte>>)
      requires buffer.Length == MAX_MESSAGE_LEN && counter as int <= MAX_PAYLOAD_LEN
      ensures contents.Some? <==> counter >= 0
      ensures contents.Some? ==> contents.value == buffer[2..2 + counter as int]
    {
      if counter < 0 {
        return None;
      }
      var n := counter as int;
      var copy := new Byte[n](_ => 0);
      for i := 0 to n
        invariant copy[..i] == buffer[2..2 + i]
      {
        copy[i] := buffer[2 + i];
      }
      assert copy[..] == copy[..n];
      return Some(copy[..]);
    }
  }

  /** `sendPacket`: the bytes offered to the queue, or none when the payload overflows the buffer. */
  method SendPacket(channel: Byte, payload: seq<Byte>) returns (tx: Option<seq<Byte>>)
    ensures tx.Some? <==> Fits(Packet(channel, payload))
    ensures tx.Some? ==> tx.value == Encode(Packet(channel, payload))
  {
    ByteOfOctet(channel);
    var pkt := new PobicosPacket.OnChannel(channel);
    var ok := pkt.AppendAll(payload);
    if !ok {
      return None;
    }
    var bytes := pkt.GetBuffer();
    var sent: seq<Byte> := [];
    for i := 0 to bytes.Length
      invariant sent == bytes[..i]
    {
      sent := sent + [bytes[i]];
    }
    return Some(sent);
  }

  // ----- The decoder thread -----

  class Receiver {
    const buffer: array<Byte>   // reused for every frame
    var rx: seq<Byte>           // the queue of bytes to read

    constructor (bytes: seq<Byte>)
      ensures buffer.Length == MAX_MESSAGE_LEN && rx == bytes && fresh(buffer)
    {
      buffer := new Byte[MAX_MESSAGE_LEN](_ => 0);
      rx := bytes;
    }

    /** One frame of `run`. The result does not depend on what earlier frames left in the buffer. */
    method ReceiveFrame() returns (d: Decoded)
      requires buffer.Length == MAX_MESSAGE_LEN
      modifies this, buffer
      ensures d == Decode(old(rx))
      ensures d.Delivered? ==> rx == d.rest
    {
      ghost var all := rx;
      for i := 0 to 2
        invariant i <= |all| && rx == all[i..] && buffer[..i] == all[..i]
      {
        if rx == [] {
          return Blocked;
        }
        buffer[i] := rx[0];
        rx := rx[1..];
      }
      var count: int := buffer[1];
      assert count == all[1] as int by { assert buffer[..2][1] == all[..2][1]; }
      assert buffer[0] == all[0] by { assert buffer[..2][0] == all[..2][0]; }
      var i := 0;
      while i < count
        invariant 0 <= i && (count < 0 ==> i == 0) && (0 <= count ==> i <= count)
        invariant i <= MAX_PAYLOAD_LEN && 2 + i <= |all|
        invariant rx == all[2 + i..] && buffer[2..2 + i] == all[2..2 + i]
        invariant buffer[0] == all[0] && buffer[1] == all[1]
      {
        if rx == [] {
          return Blocked;
        }
        var b := rx[0];
        rx := rx[1..];
        if i + 2 >= buffer.Length {
          return Died;
        }
        buffer[i + 2] := b;
        assert buffer[2..2 + i + 1] == buffer[2..2 + i] + [b];
        i := i + 1;
      }
      var pkt := new PobicosPacket.FromMessage(buffer);
      var contents := pkt.GetContents();
      if contents.None? {
        return Died;
      }
      assert contents.value == buffer[2..2 + count];
      return Delivered(Packet(pkt.buffer[0], contents.value), rx);
    }
  }

  /** The thread's loop, until it blocks or dies. */
  method Receive(bytes: seq<Byte>) returns (packets: seq<Packet>)
    ensures packets == DecodeAll(bytes).0
  {
    var r := new Receiver(bytes);
    packets := [];
    while true
      invariant r.buffer.Length == MAX_MESSAGE_LEN && fresh(r) && fresh(r.buffer)
      invariant DecodeAll(bytes).0 == packets + DecodeAll(r.rx).0
      decreases |r.rx|
    {
      ghost var rx := r.rx;
      var d := r.ReceiveFrame();
      if !d.Delivered? {
        assert DecodeAll(rx).0 == [];
        return;
      }
      assert packets + ([d.packet] + DecodeAll(d.rest).0) == packets + [d.packet] + DecodeAll(d.rest).0;
      packets := packets + [d.packet];
    }
  }

  /** The decoder frame by frame: it waits for the two bytes of the header and as many more as they
      announce. A negative length kills it, and a length above 27 when the 28th payload byte arrives. */
  lemma DecodeIs(rx: seq<Byte>)
    ensures |rx| < 2 ==> Decode(rx) == Blocked
    ensures |rx| >= 2 && rx[1] < 0 ==> Decode(rx) == Died
    ensures |rx| >= 2 && rx[1] > 27 ==> Decode(rx) == if |rx| >= 30 then Died else Blocked
    ensures |rx| >= 2 && 0 <= rx[1] <= 27 ==>
      var end: int := 2 + rx[1] as int;
      Decode(rx) == if |rx| < end then Blocked else Delivered(Packet(rx[0], rx[2..end]), rx[end..])
  {
  }

  // ----- Round trips -----

  lemma DecodeInverts(p: Packet, rest: seq<Byte>)
    requires Fits(p)
    ensures Decode(Encode(p) + rest) == Delivered(p, rest)
  {
    var rx := Encode(p) + rest;
    assert rx[2..2 + |p.payload|] == p.payload && rx[2 + |p.payload|..] == rest;
  }

  /** Decoding the concatenation of any packets gives back exactly those packets, and leaves what
      follows them untouched. */
  lemma {:induction false} StreamRoundTrip(ps: seq<Packet>, rest: seq<Byte>)
    requires AllFit(ps) && !Decode(rest).Delivered?
    ensures DecodeAll(EncodeAll(ps) + rest) == (ps, rest)
    decreases |ps|
  {
    if ps == [] {
      assert EncodeAll(ps) + rest == rest;
    } else {
      assert EncodeAll(ps) + rest == Encode(ps[0]) + (EncodeAll(ps[1..]) + rest);
      DecodeInverts(ps[0], EncodeAll(ps[1..]) + rest);
      StreamRoundTrip(ps[1..], rest);
      assert ps == [ps[0]] + ps[1..];
    }
  }

  lemma ReencodesOne(rx: seq<Byte>, p: Packet, rest: seq<Byte>)
    requires Decode(rx) == Delivered(p, rest)
    ensures Fits(p) && rx == Encode(p) + rest && |rest| < |rx|
  {
    var n := 2 + |p.payload|;
    assert rx[2..n] == p.payload && rx[n..] == rest;
  }

  /** What a stream of packets decodes to when nothing follows it. */
  lemma WholeStreamRoundTrip(ps: seq<Packet>)
    requires AllFit(ps)
    ensures DecodeAll(EncodeAll(ps)) == (ps, [])
  {
    StreamRoundTrip(ps, []);
    assert EncodeAll(ps) + [] == EncodeAll(ps);
  }

  /** Everything the decoder delivers fits, and encoding it again gives the bytes it took. */
  lemma {:induction false} DecodedReencodes(rx: seq<Byte>)
    ensures var (ps, left) := DecodeAll(rx);
      AllFit(ps) && EncodeAll(ps) + left == rx
    decreases |rx|
  {
    match Decode(rx)
    case Delivered(p, rest) =>
      DecodedReencodes(rest);
      ReencodesOne(rx, p, rest);
      var (ps, left) := DecodeAll(rest);
      assert ([p] + ps)[1..] == ps;
      var x, y := Encode(p), EncodeAll(ps);
      assert x + y + left == x + (y + left);
    case _ =>
      assert EncodeAll([]) + rx == rx;
  }
}
