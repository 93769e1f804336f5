/** The application loader: an upload driven by the node's ready requests, one 27-byte chunk
    each. */
module PillLoader {
  import opened Words
  import opened UartFraming

  const CONTROL: Byte := 0x01
  const DATA: Byte := 0x02

  /** `sent` lists every packet passed to the UART; `cancelled` that its thread was interrupted. */
  datatype Loader = Loader(
    bundle: seq<int>,
    bundleSize: int,
    offset: nat,
    running: bool,
    rootAgentID: seq<Byte>,
    hostsRootAgent: bool,
    cancelled: bool,
    sent: seq<Packet>)

  // ----- Chunks -----

  /** How many bytes the next chunk takes from the bundle. */
  function ChunkLen(size: int, offset: nat): nat {
    if size <= offset then 0
    else if size - offset < MAX_PAYLOAD_LEN then size - offset
    else MAX_PAYLOAD_LEN
  }

  /** The bundle as bytes. */
  function Image(bundle: seq<int>): (bytes: seq<Byte>)
    ensures |bytes| == |bundle|
    ensures forall i :: 0 <= i < |bundle| ==> bytes[i] == ToByte(bundle[i])
  {
    seq(|bundle|, i requires 0 <= i < |bundle| => ToByte(bundle[i]))
  }

  /** The next chunk: bundle bytes, padded with zeros; none when it would read past the array. */
  function NextChunk(l: Loader): (data: Option<seq<Byte>>)
    ensures data.Some? ==> |data.value| == MAX_PAYLOAD_LEN
  {
    var n := ChunkLen(l.bundleSize, l.offset);
    if n > 0 && l.offset + n > |l.bundle| then None
    else if n == 0 then Some(Zeros(MAX_PAYLOAD_LEN))
    else Some(Image(l.bundle)[l.offset..l.offset + n] + Zeros(MAX_PAYLOAD_LEN - n))
  }

  function Send(l: Loader, channel: Byte, payload: seq<Byte>): Loader {
    l.(sent := l.sent + [Packet(channel, payload)])
  }

  // ----- The event handler -----

  function Ready(l: Loader): Option<Loader> {
    var data := NextChunk(l);
    if data.None? then None
    else Some(Send(l, DATA, data.value).(offset := l.offset + ChunkLen(l.bundleSize, l.offset)))
  }

  function Control(l: Loader, code: Byte): Option<Loader> {
    if code == 0x02 then Some(Send(l.(offset := 0), CONTROL, [0x06]).(running := true))
    else if code == 0x03 then Ready(l)
    else if code == 0x07 then Some(l.(cancelled := true))
    else Some(l)
  }

  /** `packetReceived`; none where it throws, which it does before changing anything. */
  function React(l: Loader, channel: Byte, payload: seq<Byte>): Option<Loader> {
    var l1 :=
      if channel == CONTROL && |payload| == 1 then Control(l, payload[0])
      else if channel == CONTROL && |payload| == 5 && payload[0] == 0x07 then
        Some(l.(hostsRootAgent := true, rootAgentID := payload[1..5], cancelled := true))
      else Some(l);
    if l1.None? || payload == [] then None
    else if payload[0] == 0x0A then Some(l1.value.(hostsRootAgent := false, cancelled := true))
    else l1
  }

  function StatedSize(bundle: seq<int>): int
    requires |bundle| >= 4
  {
    Signed(Wrap(LittleEndian(Image(bundle)[..4])))
  }

  /** `loadAndStartApp`; none where it throws, on a bundle too short for its size. */
  function Load(l: Loader): Option<Loader> {
    if l.running then Some(l)
    else if |l.bundle| < 4 then None
    else Some(Send(l.(cancelled := false, bundleSize := StatedSize(l.bundle)), CONTROL, [0x01]))
  }

  class PoAppPillLoader {
    var bundle: seq<int>
    var bundleSize: int
    var offset: nat
    var running: bool
    const rootAgentID: array<Byte>
    var hostsRootAgent: bool
    var cancelled: bool
    var sent: seq<Packet>

    constructor (app: seq<int>)
      ensures Valid() && fresh(rootAgentID)
      ensures State() == Loader(app, 0, 0, false, rootAgentID[..], false, false, [])
    {
      bundle, bundleSize, offset, running := app, 0, 0, false;
      hostsRootAgent, cancelled, sent := false, false, [];
      rootAgentID := new Byte[4](_ => 0);
    }

    ghost predicate Valid() {
      rootAgentID.Length == 4
    }

    ghost function State(): Loader
      reads this, rootAgentID
    {
      Loader(bundle, bundleSize, offset, running, rootAgentID[..], hostsRootAgent, cancelled, sent)
    }

    /** `byteArrayToInt`: little-endian, with the overflow of Java's `int`. */
    method ByteArrayToInt(b: seq<Byte>, at: nat) returns (value: int)
      requires at + 4 <= |b|
      ensures value == Signed(Wrap(LittleEndian(b[at..at + 4])))
    {
      value := 0;
      var i := 0;
      while i < 4
        invariant 0 <= i <= 4 && value == Signed(Wrap(LittleEndian(b[at..at + i])))
      {
        var term := ToOctet(b[at + i]) * Scale(i);
        OneMoreByte(b, at, i, term);
        value := Signed(Wrap(value + term));
        i := i + 1;
      }
    }

    /** `retrieveBundleSize`: the bundle starts with its size; a shorter array throws. */
    method RetrieveBundleSize() returns (ok: bool)
      requires Valid()
      modifies this`bundleSize
      ensures ok <==> |bundle| >= 4
      ensures bundleSize == if ok then StatedSize(bundle) else old(bundleSize)
    {
      if |bundle| < 4 {
        return false;
      }
      var sizes := [ToByte(bundle[0]), ToByte(bundle[1]), ToByte(bundle[2]), ToByte(bundle[3])];
      assert sizes == Image(bundle)[..4] && sizes[0..0 + 4] == sizes;
      bundleSize := ByteArrayToInt(sizes, 0);
      return true;
    }

    /** `loadAndStartApp`: nothing while the application runs; else a new UART, the size read again,
        and the first packet. The offset is kept. */
    method LoadAndStartApp() returns (ok: bool)
      requires Valid()
      modifies this
      ensures Valid() && ok == Load(old(State())).Some?
      ensures State() == if ok then Load(old(State())).value else old(State()).(cancelled := false)
    {
      if running {
        return true;
      }
      cancelled := false;
      ok := RetrieveBundleSize();
      if ok {
        sent := sent + [Packet(CONTROL, [0x01])];
      }
    }

    /** The chunk loop of a ready request. */
    method BuildChunk() returns (data: Option<seq<Byte>>, n: nat)
      requires Valid()
      ensures data == NextChunk(State()) && (data.Some? ==> n == ChunkLen(bundleSize, offset))
    {
      var buf := new Byte[MAX_PAYLOAD_LEN](_ => 0);
      ghost var image := Image(bundle);
      var i := 0;
      while i < MAX_PAYLOAD_LEN && i + offset < bundleSize
        invariant i <= ChunkLen(bundleSize, offset) && (i > 0 ==> offset + i <= |bundle|)
        invariant i > 0 ==> buf[..i] == image[offset..offset + i]
        invariant forall k :: i <= k < MAX_PAYLOAD_LEN ==> buf[k] == 0
        decreases MAX_PAYLOAD_LEN - i
      {
        if i + offset >= |bundle| {
          return None, i;
        }
        buf[i] := ToByte(bundle[i + offset]);
        assert buf[..i + 1] == buf[..i] + [buf[i]];
        assert image[offset..offset + i + 1] == image[offset..offset + i] + [image[offset + i]];
        i := i + 1;
      }
      PaddedWithZeros(buf[..], i);
      assert buf[..][..i] == buf[..i];
      return Some(buf[..]), i;
    }

    /** `packetReceived`; `ok` is false where it throws. */
    method PacketReceived(channel: Byte, payload: seq<Byte>) returns (ok: bool)
      requires Valid()
      modifies this, rootAgentID
      ensures Valid() && ok == React(old(State()), channel, payload).Some?
      ensures State() == if ok then React(old(State()), channel, payload).value else old(State())
    {
      if channel == 0x01 && |payload| == 1 {
        if payload[0] == 0x02 {
          offset := 0;
          sent := sent + [Packet(CONTROL, [0x06])];
          running := true;
        } else if payload[0] == 0x03 {
          var data, n := BuildChunk();
          if data.None? {
            return false;
          }
          offset := offset + n;
          sent := sent + [Packet(DATA, data.value)];
        } else if payload[0] == 0x07 {
          cancelled := true;
        }
      } else if channel == 0x01 && |payload| == 5 {
        if payload[0] == 0x07 {
          hostsRootAgent := true;
          for i := 0 to 4
            invariant rootAgentID[..i] == payload[1..1 + i]
            invariant hostsRootAgent && bundle == old(bundle) && bundleSize == old(bundleSize) && offset == old(offset)
            invariant running == old(running) && cancelled == old(cancelled) && sent == old(sent)
          {
            rootAgentID[i] := payload[1 + i];
          }
          assert rootAgentID[..] == rootAgentID[..4];
          cancelled := true;
        }
      }
      if |payload| == 0 {
        return false;
      }
      if payload[0] == 0x0A {
        hostsRootAgent := false;
        cancelled := true;
      }
      return true;
    }
  }

  function Scale(i: nat): nat {
    if i == 0 then 1 else 0x100 * Scale(i - 1)
  }

  function LittleEndian(b: seq<Byte>): nat {
    if b == [] then 0 else LittleEndian(b[..|b| - 1]) + ToOctet(b[|b| - 1]) * Scale(|b| - 1)
  }

  lemma LittleEndianGrows(b: seq<Byte>, at: nat, i: nat)
    requires at + i < |b|
    ensures LittleEndian(b[at..at + i + 1]) == LittleEndian(b[at..at + i]) + ToOctet(b[at + i]) * Scale(i)
  {
    var s := b[at..at + i + 1];
    assert s[..|s| - 1] == b[at..at + i] && s[|s| - 1] == b[at + i] && |s| - 1 == i;
  }

  /** Adding to an overflowed `int` overflows to the same value. */
  lemma AddsAsInt(x: nat, y: nat)
    ensures Signed(Wrap(Signed(Wrap(x)) + y)) == Signed(Wrap(x + y))
  {
    assert Wrap(Signed(Wrap(x)) + y) == Wrap(x + y);
  }

  lemma OneMoreByte(b: seq<Byte>, at: nat, i: nat, term: nat)
    requires at + i < |b| && term == ToOctet(b[at + i]) * Scale(i)
    ensures Signed(Wrap(Signed(Wrap(LittleEndian(b[at..at + i]))) + term))
         == Signed(Wrap(LittleEndian(b[at..at + i + 1])))
  {
    LittleEndianGrows(b, at, i);
    AddsAsInt(LittleEndian(b[at..at + i]), term);
  }

  /** The bytes' weights. */
  lemma LittleEndianIs(b: seq<Byte>)
    requires |b| == 4
    ensures LittleEndian(b)
         == ToOctet(b[0]) + 0x100 * ToOctet(b[1]) + 0x1_0000 * ToOctet(b[2]) + 0x100_0000 * ToOctet(b[3])
  {
    LittleEndianGrows(b, 0, 0);
    LittleEndianGrows(b, 0, 1);
    LittleEndianGrows(b, 0, 2);
    LittleEndianGrows(b, 0, 3);
    assert b[0..4] == b;
  }

  lemma BelowWord(x: int)
    requires 0 <= x < 0x1_0000_0000
    ensures Wrap(x) == x
  {
  }

  /** The size that a bundle states: its first four entries, reduced to octets, least significant
      first, as a Java `int`. */
  lemma StatedSizeIs(bundle: seq<int>)
    requires |bundle| >= 4
    ensures StatedSize(bundle) == Signed(
      bundle[0] % 0x100 + 0x100 * (bundle[1] % 0x100)
      + 0x1_0000 * (bundle[2] % 0x100) + 0x100_0000 * (bundle[3] % 0x100))
  {
    var b := Image(bundle)[..4];
    LittleEndianIs(b);
    OctetOfByte(bundle[0]);
    OctetOfByte(bundle[1]);
    OctetOfByte(bundle[2]);
    OctetOfByte(bundle[3]);
    BelowWord(LittleEndian(b));
  }

  lemma OctetsOfSize(n: nat)
    ensures n == n % 0x100 + 0x100 * (n / 0x100 % 0x100) + 0x1_0000 * (n / 0x1_0000 % 0x100)
                 + 0x100_0000 * (n / 0x100_0000)
  {
    assert n / 0x100 / 0x100 == n / 0x1_0000 && n / 0x1_0000 / 0x100 == n / 0x100_0000;
  }

  lemma Reduced(o: Octet)
    ensures o % 0x100 == o
  {
  }

  /** A bundle that begins with the four octets of `n`, least significant first, states `n`. */
  lemma WrittenSizeIsStated(bundle: seq<int>, n: nat)
    requires |bundle| >= 4 && n < 0x8000_0000
    requires bundle[0] == n % 0x100 && bundle[1] == n / 0x100 % 0x100
    requires bundle[2] == n / 0x1_0000 % 0x100 && bundle[3] == n / 0x100_0000
    ensures StatedSize(bundle) == n
  {
    StatedSizeIs(bundle);
    OctetsOfSize(n);
    Reduced(bundle[0]);
    Reduced(bundle[1]);
    Reduced(bundle[2]);
    Reduced(bundle[3]);
  }

  lemma PaddedWithZeros(s: seq<Byte>, i: nat)
    requires i <= |s| && forall k :: i <= k < |s| ==> s[k] == 0
    ensures s == s[..i] + Zeros(|s| - i)
  {
  }

  // ----- Packets from the node -----

  /** What each packet but a ready request does: "finished" starts the application and resets the
      offset; "started" stops the UART thread and, with five bytes, keeps the root agent's id, which is
      then hosted here; "killed", on any channel, ends that; an empty packet throws, and any other
      changes nothing. */
  lemma ReactIs(l: Loader, channel: Byte, payload: seq<Byte>)
    ensures payload == [] ==> React(l, channel, payload) == None
    ensures channel == 1 && payload == [0x02] ==>
      React(l, channel, payload) == Some(l.(offset := 0, running := true, sent := l.sent + [Packet(1, [0x06])]))
    ensures channel == 1 && payload == [0x07] ==> React(l, channel, payload) == Some(l.(cancelled := true))
    ensures channel == 1 && |payload| == 5 && payload[0] == 0x07 ==>
      var id := [payload[1], payload[2], payload[3], payload[4]];
      React(l, channel, payload) == Some(l.(hostsRootAgent := true, rootAgentID := id, cancelled := true))
    ensures payload != [] && payload[0] == 0x0A ==>
      React(l, channel, payload) == Some(l.(hostsRootAgent := false, cancelled := true))
    ensures payload != [] && payload[0] != 0x0A
            && (channel != 1 || (payload !in [[0x02], [0x03], [0x07]] && !(|payload| == 5 && payload[0] == 0x07))) ==>
      React(l, channel, payload) == Some(l)
  {
    if |payload| == 1 { assert payload == [payload[0]]; }
    if |payload| == 5 { assert payload[1..5] == [payload[1], payload[2], payload[3], payload[4]]; }
  }

  /** A load while nothing runs reads the bundle's size and sends the first packet; a bundle of fewer than
      four entries throws, and a running application is left alone. */
  lemma LoadIs(l: Loader)
    ensures l.running ==> Load(l) == Some(l)
    ensures !l.running && |l.bundle| < 4 ==> Load(l) == None
    ensures !l.running && |l.bundle| >= 4 ==>
      Load(l) == Some(l.(cancelled := false, bundleSize := StatedSize(l.bundle), sent := l.sent + [Packet(1, [1])]))
  {
  }

  // ----- Upload -----

  /** `k` ready requests in a row. */
  function ReadyTimes(l: Loader, k: nat): Option<Loader>
    decreases k
  {
    if k == 0 then Some(l)
    else
      var m := ReadyTimes(l, k - 1);
      if m.None? then None else React(m.value, CONTROL, [0x03])
  }

  function Payloads(ps: seq<Packet>): seq<Byte> {
    if ps == [] then [] else Payloads(ps[..|ps| - 1]) + ps[|ps| - 1].payload
  }

  function Min(x: int, y: int): int {
    if x <= y then x else y
  }

  /** Where `k` chunks from `offset` end. */
  function Reached(size: int, offset: nat, k: nat): nat {
    if size <= offset then offset else Min(offset + MAX_PAYLOAD_LEN * k, size)
  }

  /** `k` ready requests never throw on a bundle at least as long as it says, and move only the
      offset and the packets sent. */
  lemma {:induction false} UploadReaches(l: Loader, k: nat)
    requires l.bundleSize <= |l.bundle| && l.offset <= |l.bundle|
    ensures var m := ReadyTimes(l, k);
      && m.Some? && Reached(l.bundleSize, l.offset, k) <= |l.bundle|
      && m.value == l.(offset := Reached(l.bundleSize, l.offset, k), sent := m.value.sent)
      && |m.value.sent| == |l.sent| + k
    decreases k
  {
    if k > 0 {
      UploadReaches(l, k - 1);
      ReadyAppends(ReadyTimes(l, k - 1).value);
    }
  }

  lemma ReadyAppends(m: Loader)
    requires m.bundleSize <= |m.bundle| && m.offset <= |m.bundle|
    ensures NextChunk(m).Some?
    ensures React(m, CONTROL, [0x03])
         == Some(m.(offset := m.offset + ChunkLen(m.bundleSize, m.offset),
                    sent := m.sent + [Packet(2, NextChunk(m).value)]))
  {
  }

  lemma PayloadsAppend(ps: seq<Packet>, p: Packet)
    ensures Payloads(ps + [p]) == Payloads(ps) + p.payload
  {
    assert (ps + [p])[..|ps|] == ps;
  }

  /** After `k` requests from `l`, `m` has sent the bundle bytes up to where they reach, once each
      and in order, and then only zeros. */
  predicate Conserved(l: Loader, m: Loader, k: nat) {
    var at := Reached(l.bundleSize, l.offset, k);
    && m == l.(offset := at, sent := m.sent)
    && l.offset <= at <= |l.bundle|
    && Payloads(m.sent) == Payloads(l.sent) + Sent(Image(l.bundle), l.offset, at, k)
  }

  lemma ReachesOneMore(size: int, from: nat, k: nat)
    requires k > 0
    ensures from <= Reached(size, from, k - 1)
    ensures Reached(size, from, k) == Reached(size, from, k - 1) + ChunkLen(size, Reached(size, from, k - 1))
  {
  }

  lemma ConservesOneMore(l: Loader, m: Loader, k: nat, r: Loader)
    requires l.bundleSize <= |l.bundle| && l.offset <= |l.bundle|
    requires k > 0 && Conserved(l, m, k - 1) && React(m, CONTROL, [0x03]) == Some(r)
    ensures Conserved(l, r, k)
  {
    var p := Packet(DATA, NextChunk(m).value);
    ReadyAppends(m);
    assert r.sent == m.sent + [p];
    PayloadsAppend(m.sent, p);
    ReachesOneMore(l.bundleSize, l.offset, k);
    assert r.offset == Reached(l.bundleSize, l.offset, k);
    NextChunkSends(m, Image(l.bundle), Payloads(l.sent), l.offset, k);
    assert Payloads(r.sent) == Payloads(l.sent) + Sent(Image(l.bundle), l.offset, r.offset, k);
  }

  /** Conservation of an upload, from any offset. */
  lemma {:induction false} UploadConserves(l: Loader, k: nat)
    requires l.bundleSize <= |l.bundle| && l.offset <= |l.bundle|
    ensures ReadyTimes(l, k).Some? && Conserved(l, ReadyTimes(l, k).value, k)
    decreases k
  {
    UploadReaches(l, k);
    if k > 0 {
      UploadConserves(l, k - 1);
      ConservesOneMore(l, ReadyTimes(l, k - 1).value, k, ReadyTimes(l, k).value);
    } else {
      NothingSent(Image(l.bundle), l.offset, Payloads(l.sent));
    }
  }

  lemma NothingSent(image: seq<Byte>, at: nat, before: seq<Byte>)
    requires at <= |image|
    ensures before + Sent(image, at, at, 0) == before
  {
  }

  /** The k-th chunk continues what `k - 1` chunks have sent. */
  lemma NextChunkSends(m: Loader, image: seq<Byte>, before: seq<Byte>, from: nat, k: nat)
    requires k > 0 && image == Image(m.bundle) && m.bundleSize <= |image| && from <= |image|
    requires m.offset == Reached(m.bundleSize, from, k - 1)
    ensures NextChunk(m).Some? && from <= m.offset <= Reached(m.bundleSize, from, k) <= |image|
    ensures before + Sent(image, from, m.offset, k - 1) + NextChunk(m).value
         == before + Sent(image, from, Reached(m.bundleSize, from, k), k)
  {
    var n := ChunkLen(m.bundleSize, m.offset);
    assert Reached(m.bundleSize, from, k) == m.offset + n;
    ChunkJoins(image, from, m.offset, n, k);
    assert NextChunk(m).value == image[m.offset..m.offset + n] + Zeros(MAX_PAYLOAD_LEN - n);
    var y, z := Sent(image, from, m.offset, k - 1), NextChunk(m).value;
    assert before + y + z == before + (y + z);
  }

  /** What `k` chunks carry when they reach from `from` to `to`. */
  function Sent(image: seq<Byte>, from: nat, to: nat, k: nat): seq<Byte>
    requires from <= to <= |image|
  {
    image[from..to] + Zeros(if to - from <= MAX_PAYLOAD_LEN * k then MAX_PAYLOAD_LEN * k - (to - from) else 0)
  }

  lemma ChunkJoins(image: seq<Byte>, from: nat, at: nat, n: nat, k: nat)
    requires k > 0 && from <= at && at + n <= |image| && n <= MAX_PAYLOAD_LEN
    requires at - from <= MAX_PAYLOAD_LEN * (k - 1) && (n > 0 ==> at - from == MAX_PAYLOAD_LEN * (k - 1))
    ensures Sent(image, from, at, k - 1) + (image[at..at + n] + Zeros(MAX_PAYLOAD_LEN - n))
         == Sent(image, from, at + n, k)
  {
    assert image[from..at] + image[at..at + n] == image[from..at + n];
  }

  /** From offset 0, the whole bundle has been sent exactly when there were at least
      ceil(bundleSize / 27) requests. */
  lemma UploadCompleteIff(l: Loader, k: nat)
    requires 0 <= l.bundleSize <= |l.bundle| && l.offset == 0
    ensures ReadyTimes(l, k).Some?
    ensures ReadyTimes(l, k).value.offset == l.bundleSize
      <==> k >= (l.bundleSize + MAX_PAYLOAD_LEN - 1) / MAX_PAYLOAD_LEN
  {
    UploadReaches(l, k);
  }

  lemma {:induction false} ChunksFit(l: Loader, k: nat)
    requires l.bundleSize <= |l.bundle| && l.offset <= |l.bundle| && AllFit(l.sent)
    ensures ReadyTimes(l, k).Some? && AllFit(ReadyTimes(l, k).value.sent)
    decreases k
  {
    if k > 0 {
      ChunksFit(l, k - 1);
      UploadReaches(l, k - 1);
      ReadyAppends(ReadyTimes(l, k - 1).value);
    }
  }

  /** Every packet of an upload fits its UART frame, so what a node decodes from the wire is the
      sequence of chunks: the bundle up to where they reach, then zeros. */
  lemma UploadSurvivesTheWire(l: Loader, k: nat)
    requires l.bundleSize <= |l.bundle| && l.offset == 0 && l.sent == []
    ensures ReadyTimes(l, k).Some? && AllFit(ReadyTimes(l, k).value.sent)
    ensures Reached(l.bundleSize, 0, k) <= |l.bundle|
    ensures Payloads(DecodeAll(EncodeAll(ReadyTimes(l, k).value.sent)).0)
         == Sent(Image(l.bundle), 0, Reached(l.bundleSize, 0, k), k)
  {
    UploadConserves(l, k);
    ChunksFit(l, k);
    WholeStreamRoundTrip(ReadyTimes(l, k).value.sent);
    var carried := Sent(Image(l.bundle), 0, Reached(l.bundleSize, 0, k), k);
    assert Payloads(l.sent) + carried == carried;
  }

  /** An upload error leaves the offset alone. When the upload is loaded again after `j` requests and
      an error, `k` more requests send the bundle from the byte where the first upload stopped: the
      node gets every byte of the bundle exactly when that was the first one, with ceil(size/27)
      requests or more, and otherwise misses all bytes before it. */
  lemma RestartAfterErrorIff(l: Loader, j: nat, k: nat)
    requires !l.running && l.offset == 0 && |l.bundle| >= 4 && 0 <= StatedSize(l.bundle) <= |l.bundle|
    ensures var size := StatedSize(l.bundle);
      var from := Reached(size, 0, j);
      var to := Reached(size, from, k);
      var first := ReadyTimes(Load(l).value, j);
      && 0 <= from <= to <= |l.bundle|
      && first.Some? && React(first.value, CONTROL, [0x04]) == first && Load(first.value).Some?
      && var second := Load(first.value).value;
         && second.offset == from && ReadyTimes(second, k).Some?
         && Payloads(ReadyTimes(second, k).value.sent) == Payloads(second.sent) + Sent(Image(l.bundle), from, to, k)
         && (Image(l.bundle)[from..to] == Image(l.bundle)[..size] <==>
               (j == 0 || size == 0) && k >= (size + MAX_PAYLOAD_LEN - 1) / MAX_PAYLOAD_LEN)
  {
    UploadReaches(Load(l).value, j);
    var first := ReadyTimes(Load(l).value, j).value;
    var second := Load(first).value;
    UploadConserves(second, k);
    RestartCovers(Image(l.bundle), StatedSize(l.bundle), j, k);
  }

  lemma RestartCovers(image: seq<Byte>, size: nat, j: nat, k: nat)
    requires size <= |image|
    ensures var from := Reached(size, 0, j);
      var to := Reached(size, from, k);
      && from <= to <= |image|
      && (image[from..to] == image[..size] <==>
            (j == 0 || size == 0) && k >= (size + MAX_PAYLOAD_LEN - 1) / MAX_PAYLOAD_LEN)
  {
    var from := Reached(size, 0, j);
    var to := Reached(size, from, k);
    assert |image[from..to]| == to - from && |image[..size]| == size;
    if from == 0 && to == size { assert image[from..to] == image[..size]; }
  }

  /** The node's "finished" starts the application and resets the offset, so the next upload, as long
      as the last, sends the whole bundle again. */
  lemma NextUploadSendsAll(l: Loader, j: nat, k: nat)
    requires l.bundleSize <= |l.bundle| && l.offset == 0
    ensures var first := ReadyTimes(l, j);
      && first.Some? && React(first.value, CONTROL, [0x02]).Some?
      && var l2 := React(first.value, CONTROL, [0x02]).value;
         && l2.running && l2.sent == first.value.sent + [Packet(CONTROL, [0x06])]
         && ReadyTimes(l2, k).Some? && Reached(l.bundleSize, 0, k) <= |l.bundle|
         && Payloads(ReadyTimes(l2, k).value.sent)
            == Payloads(l2.sent) + Sent(Image(l.bundle), 0, Reached(l.bundleSize, 0, k), k)
  {
    UploadReaches(l, j);
    var l2 := React(ReadyTimes(l, j).value, CONTROL, [0x02]).value;
    UploadConserves(l2, k);
  }

  /** A ready request throws exactly when its chunk would read past the bundle array. */
  lemma ReadyThrowsIff(l: Loader)
    ensures React(l, CONTROL, [0x03]).None?
      <==> l.offset < l.bundleSize && Min(l.offset + MAX_PAYLOAD_LEN, l.bundleSize) > |l.bundle|
  {
  }
}
