/** The client's packets: `NetworkService` wraps a datagram with its addresses, and
    `PoCommMgrWriteTask` frames it and appends the location trailer. */
module NetworkPackets {
  import opened Words
  import opened Serialization

  const POBICOS_MSG: Byte := 0x01
  const REGISTRY_REQ: Byte := 0x02
  const REG_REPLY_FAIL: Byte := 0x03
  const REG_REPLY_WELCOME: Byte := 0x04
  const REG_REPLY_PONG: Byte := 0x05
  const HEADER_LEN: nat := 2
  const TRAILER_LEN: nat := 18

  /** A queued message; `len` is the payload length as a Java byte. */
  datatype NetworkMsg = NetworkMsg(kind: Byte, len: Byte, payload: seq<Byte>)

  /** A datagram as the middleware hands it over or gets it back. */
  datatype Datagram = Datagram(payload: seq<Byte>, source: Char16, dest: Char16)

  /** The application's location filter: a radius and two coordinates, each an opaque `double`. */
  datatype Location = Location(radius: Char16, lat: seq<Byte>, lon: seq<Byte>)

  predicate ValidLocation(l: Location) {
    |l.lat| == 8 && |l.lon| == 8
  }

  // ----- Wrapping a datagram -----

  function Wrapped(d: Datagram): seq<Byte> {
    PutChar(d.source) + PutChar(d.dest) + [ToByte(|d.payload|)] + d.payload
  }

  /** What `JNICall_ReceivedPacket` passes on, or none where Java throws: a payload shorter than
      it claims, or a negative length. Bytes after the claimed length are ignored. */
  function Unwrapped(p: seq<Byte>): (d: Option<Datagram>)
    ensures d.Some? <==> 5 <= |p| && 0 <= p[4] as int <= |p| - 5
  {
    if |p| < 5 then None
    else
      var len: int := p[4];
      if len < 0 || |p| < 5 + len then None
      else Some(Datagram(p[5..5 + len], CharAt(p[0], p[1]), CharAt(p[2], p[3])))
  }

  /** `JNICallback_SendPacket`: none where Java throws, for a payload shorter than it claims or a
      negative length. Bytes after the claimed length are not sent. */
  method SendPacket(payload: seq<Byte>, len: Byte, source: Char16, dest: Char16) returns (msg: Option<NetworkMsg>)
    ensures msg.Some? <==> 0 <= len as int <= |payload|
    ensures msg.Some? ==>
      msg.value == NetworkMsg(POBICOS_MSG, ToByte(5 + len), Wrapped(Datagram(payload[..len], source, dest)))
  {
    if len < 0 || len as int > |payload| {
      return None;
    }
    var buf := new Byte[2 + 2 + 1 + len](_ => 0);
    buf[0] := HighByte(source);
    buf[1] := LowByte(source);
    buf[2] := HighByte(dest);
    buf[3] := LowByte(dest);
    buf[4] := len;
    for i := 0 to len as nat
      invariant buf[..5] == PutChar(source) + PutChar(dest) + [len]
      invariant buf[5..5 + i] == payload[..i]
    {
      buf[i + 5] := payload[i];
      assert buf[5..5 + i + 1] == buf[5..5 + i] + [payload[i]];
    }
    ByteOfOctet(len);
    assert buf[..] == buf[..5] + buf[5..];
    return Some(NetworkMsg(POBICOS_MSG, ToByte(buf.Length), buf[..]));
  }

  /** `JNICall_ReceivedPacket`. */
  method ReceivedPacket(msg: NetworkMsg) returns (d: Option<Datagram>)
    ensures d == Unwrapped(msg.payload)
  {
    if |msg.payload| < 5 || msg.payload[4] < 0 {
      return None;
    }
    var src := CharAt(msg.payload[0], msg.payload[1]);
    var dst := CharAt(msg.payload[2], msg.payload[3]);
    var len := msg.payload[4];
    var pomsg := new Byte[len](_ => 0);
    for i := 0 to len as nat
      invariant i + 5 <= |msg.payload|
      invariant pomsg[..i] == msg.payload[5..5 + i]
    {
      if i + 5 >= |msg.payload| {
        return None;
      }
      pomsg[i] := msg.payload[i + 5];
    }
    assert pomsg[..] == pomsg[..len];
    return Some(Datagram(pomsg[..], src, dst));
  }

  // ----- Framing a message -----

  /** The trailer: the application's location on the node that hosts its root agent, else zeros. */
  function Trailer(hostsRootAgent: bool, app: Location): (t: seq<Byte>)
    requires ValidLocation(app)
    ensures |t| == TRAILER_LEN
  {
    if hostsRootAgent then PutChar(app.radius) + app.lat + app.lon else Zeros(TRAILER_LEN)
  }

  function TrailerOf(kind: Byte, hostsRootAgent: bool, app: Location): seq<Byte>
    requires ValidLocation(app)
  {
    if kind == POBICOS_MSG then Trailer(hostsRootAgent, app) else []
  }

  /** The bytes the writer sends: type, payload length as one byte, payload, trailer. */
  function Framed(msg: NetworkMsg, hostsRootAgent: bool, app: Location): seq<Byte>
    requires ValidLocation(app)
  {
    var t := TrailerOf(msg.kind, hostsRootAgent, app);
    [msg.kind, ToByte(|msg.payload| + |t|)] + msg.payload + t
  }

  /** A `ByteBuffer` being filled: the bytes put so far and its capacity. */
  datatype ByteBuffer = ByteBuffer(bytes: seq<Byte>, capacity: nat) {
    predicate Fits(more: nat) {
      |bytes| + more <= capacity
    }

    function Put(bs: seq<Byte>): ByteBuffer
      requires Fits(|bs|)
    {
      this.(bytes := bytes + bs)
    }
  }

  method PutTrailer(buf: ByteBuffer, hostsRootAgent: bool, app: Location) returns (r: ByteBuffer)
    requires ValidLocation(app) && buf.Fits(TRAILER_LEN)
    ensures r == buf.Put(Trailer(hostsRootAgent, app))
  {
    if hostsRootAgent {
      r := buf.Put(PutChar(app.radius)).Put(app.lat).Put(app.lon);
    } else {
      r := buf.Put(PutChar(0)).Put(Zeros(8)).Put(Zeros(8));
    }
    assert r.bytes == buf.bytes + Trailer(hostsRootAgent, app);
  }

  /** The writer's buffer for one message: none where Java throws, for a payload longer than the
      message's length byte says. A shorter one leaves zeros at the end. */
  method BuildFrame(msg: NetworkMsg, hostsRootAgent: bool, app: Location) returns (frame: Option<seq<Byte>>)
    requires ValidLocation(app)
    ensures frame.Some? <==> |msg.payload| <= ToOctet(msg.len)
    ensures frame.Some? ==>
      var spare := Zeros(ToOctet(msg.len) - |msg.payload|);
      frame.value == [msg.kind, ToByte(ToOctet(msg.len) + |TrailerOf(msg.kind, hostsRootAgent, app)|)]
                     + msg.payload + TrailerOf(msg.kind, hostsRootAgent, app) + spare
    ensures ToOctet(msg.len) == |msg.payload| ==> frame == Some(Framed(msg, hostsRootAgent, app))
  {
    var capacity := HEADER_LEN + ToOctet(msg.len);
    var p: int := ToOctet(msg.len);
    if msg.kind == POBICOS_MSG {
      capacity := capacity + 18;
      p := p + 18;
    }
    var buf := ByteBuffer([msg.kind] + [ToByte(p)], capacity);
    if |msg.payload| > ToOctet(msg.len) {
      return None;   // by put, or by a later put of the trailer
    }
    buf := buf.Put(msg.payload);
    ghost var front := buf.bytes;
    if msg.kind == POBICOS_MSG {
      buf := PutTrailer(buf, hostsRootAgent, app);
    }
    assert buf.bytes == front + TrailerOf(msg.kind, hostsRootAgent, app);
    assert front == [msg.kind, ToByte(p)] + msg.payload;
    if |msg.payload| == ToOctet(msg.len) {
      assert buf.bytes == Framed(msg, hostsRootAgent, app);
      assert buf.bytes + Zeros(0) == buf.bytes;
    }
    frame := Some(buf.bytes + Zeros(capacity - |buf.bytes|));
  }

  /** The drain loop: whatever part of the rest each socket write accepts, the bytes go out once
      each and in order; `accepts` lists what successive writes take until the socket fails. */
  method WriteAll(buf: seq<Byte>, accepts: seq<nat>) returns (wire: seq<Byte>, done: bool)
    ensures wire <= buf && (done <==> wire == buf)
    ensures Sum(accepts) >= |buf| ==> done
  {
    wire, done := [], |buf| == 0;
    var j := 0;
    while |wire| < |buf| && j < |accepts|
      invariant j <= |accepts| && wire <= buf
      invariant Sum(accepts[..j]) <= |wire| || wire == buf
      decreases |accepts| - j
    {
      var n := if accepts[j] <= |buf| - |wire| then accepts[j] else |buf| - |wire|;
      assert wire + buf[|wire|..|wire| + n] == buf[..|wire| + n];
      wire := wire + buf[|wire|..|wire| + n];
      assert accepts[..j + 1][..j] == accepts[..j];
      j := j + 1;
    }
    assert accepts[..|accepts|] == accepts;
    done := |wire| == |buf|;
  }

  function Sum(xs: seq<nat>): nat {
    if xs == [] then 0 else Sum(xs[..|xs| - 1]) + xs[|xs| - 1]
  }

  // ----- Properties -----

  /** The length byte of a frame is its payload length exactly when payload and trailer fit it. */
  lemma LengthByteIff(msg: NetworkMsg, hostsRootAgent: bool, app: Location)
    requires ValidLocation(app)
    ensures ToOctet(Framed(msg, hostsRootAgent, app)[1]) == |Framed(msg, hostsRootAgent, app)| - HEADER_LEN
      <==> |msg.payload| + (if msg.kind == POBICOS_MSG then TRAILER_LEN else 0) < 0x100
  {
    OctetOfByte(|msg.payload| + |TrailerOf(msg.kind, hostsRootAgent, app)|);
  }

  /** A datagram keeps its bytes and length through wrapping and unwrapping, whatever follows it;
      each address survives exactly when it is sign-safe. */
  lemma DatagramSurvives(d: Datagram, rest: seq<Byte>)
    requires |d.payload| < 0x80
    ensures var r := Unwrapped(Wrapped(d) + rest);
      && r == Some(Datagram(d.payload, Decoded(d.source), Decoded(d.dest)))
      && (r.value.source == d.source <==> SignSafe(d.source))
      && (r.value.dest == d.dest <==> SignSafe(d.dest))
  {
    var p := Wrapped(d) + rest;
    ByteOfOctet(|d.payload|);
    assert p[4] == |d.payload|;
    assert p[5..5 + |d.payload|] == d.payload;
    CharAtRoundTripIff(d.source);
    CharAtRoundTripIff(d.dest);
  }

  /** The directory reads the trailer at fixed distances from the end of the frame. */
  function RadiusAt(frame: seq<Byte>): Char16
    requires |frame| >= TRAILER_LEN
  {
    CharOf(frame[|frame| - 18], frame[|frame| - 17])
  }

  function LatAt(frame: seq<Byte>): seq<Byte>
    requires |frame| >= TRAILER_LEN
  {
    frame[|frame| - 16..|frame| - 8]
  }

  function LonAt(frame: seq<Byte>): seq<Byte>
    requires |frame| >= TRAILER_LEN
  {
    frame[|frame| - 8..]
  }

  lemma TrailerCoordinates(hostsRootAgent: bool, app: Location)
    requires ValidLocation(app)
    ensures Trailer(hostsRootAgent, app)[2..10] == if hostsRootAgent then app.lat else Zeros(8)
    ensures Trailer(hostsRootAgent, app)[10..] == if hostsRootAgent then app.lon else Zeros(8)
  {
  }

  lemma TrailerRadius(hostsRootAgent: bool, app: Location)
    requires ValidLocation(app)
    ensures CharOf(Trailer(hostsRootAgent, app)[0], Trailer(hostsRootAgent, app)[1])
         == if hostsRootAgent then app.radius else 0
  {
    if hostsRootAgent {
      CharRoundTrip(app.radius);
    } else {
      CharOfIs(0, 0);
    }
  }

  /** The frame of a datagram. */
  function DatagramFrame(d: Datagram, hostsRootAgent: bool, app: Location): seq<Byte>
    requires ValidLocation(app)
  {
    Framed(NetworkMsg(POBICOS_MSG, ToByte(5 + |d.payload|), Wrapped(d)), hostsRootAgent, app)
  }

  lemma DatagramFrameEndsInTrailer(d: Datagram, hostsRootAgent: bool, app: Location)
    requires ValidLocation(app)
    ensures var frame := DatagramFrame(d, hostsRootAgent, app);
      && |frame| == 2 + 5 + |d.payload| + 18
      && frame[|frame| - TRAILER_LEN..] == Trailer(hostsRootAgent, app)
      && frame[2..|frame| - TRAILER_LEN] == Wrapped(d)
  {
  }

  /** The directory's trailer offsets match the writer's, and are these. */
  lemma DirectoryReadsTheCoordinates(d: Datagram, hostsRootAgent: bool, app: Location)
    requires ValidLocation(app)
    ensures |DatagramFrame(d, hostsRootAgent, app)| >= 18
    ensures var frame := DatagramFrame(d, hostsRootAgent, app);
      && frame[|frame| - 16..|frame| - 8] == LatAt(frame) && frame[|frame| - 8..] == LonAt(frame)
    ensures LatAt(DatagramFrame(d, hostsRootAgent, app)) == if hostsRootAgent then app.lat else Zeros(8)
    ensures LonAt(DatagramFrame(d, hostsRootAgent, app)) == if hostsRootAgent then app.lon else Zeros(8)
  {
    var frame, t := DatagramFrame(d, hostsRootAgent, app), Trailer(hostsRootAgent, app);
    DatagramFrameEndsInTrailer(d, hostsRootAgent, app);
    TrailerCoordinates(hostsRootAgent, app);
    var n := |frame| - TRAILER_LEN;
    assert frame[n..][2..10] == LatAt(frame) && frame[n..][10..] == LonAt(frame);
  }

  lemma RadiusStartsTheSuffix(frame: seq<Byte>, t: seq<Byte>)
    requires |t| == TRAILER_LEN <= |frame| && frame[|frame| - TRAILER_LEN..] == t
    ensures RadiusAt(frame) == CharOf(t[0], t[1])
  {
    assert t[0] == frame[|frame| - 18] && t[1] == frame[|frame| - 17];
  }

  /** The radius is read most significant byte first. */
  lemma RadiusIsBigEndian(frame: seq<Byte>)
    requires |frame| >= 18
    ensures RadiusAt(frame) == 0x100 * ToOctet(frame[|frame| - 18]) + ToOctet(frame[|frame| - 17])
  {
    CharOfIs(frame[|frame| - 18], frame[|frame| - 17]);
  }

  lemma DirectoryReadsTheRadius(d: Datagram, hostsRootAgent: bool, app: Location)
    requires ValidLocation(app)
    ensures |DatagramFrame(d, hostsRootAgent, app)| >= TRAILER_LEN
    ensures RadiusAt(DatagramFrame(d, hostsRootAgent, app)) == if hostsRootAgent then app.radius else 0
  {
    DatagramFrameEndsInTrailer(d, hostsRootAgent, app);
    RadiusStartsTheSuffix(DatagramFrame(d, hostsRootAgent, app), Trailer(hostsRootAgent, app));
    TrailerRadius(hostsRootAgent, app);
  }

  /** The directory finds the destination where the wrapper put it, as the sign-extending decoder
      reads it. */
  lemma DirectoryReadsTheDestination(d: Datagram, hostsRootAgent: bool, app: Location)
    requires ValidLocation(app)
    ensures var frame := DatagramFrame(d, hostsRootAgent, app);
      |frame| >= 6 && CharAt(frame[4], frame[5]) == Decoded(d.dest)
  {
    var frame := DatagramFrame(d, hostsRootAgent, app);
    DatagramFrameEndsInTrailer(d, hostsRootAgent, app);
    var w := Wrapped(d);
    assert w[2] == HighByte(d.dest) && w[3] == LowByte(d.dest);
    assert frame[2..|frame| - TRAILER_LEN][2] == frame[4];
    assert frame[2..|frame| - TRAILER_LEN][3] == frame[5];
    CharAtRoundTripIff(d.dest);
  }
}
