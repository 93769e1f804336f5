/** A datagram all the way: filter, hardware layer, Java packet, frame, the directory's hop, and
    back up at each registered node. */
module DatagramPath {
  import opened Words
  import opened Serialization
  import opened NetworkPackets
  import opened StreamFraming
  import opened VirtualFilter
  import opened DirectoryModel
  import opened MidFrame
  import Forwarding
  import DirectoryServer

  // ----- The directory's hop -----

  /** The directory at the time of a datagram from socket `from`: its nodes, who is near, and how
      many bytes the socket of the i-th write then takes. */
  datatype Hop = Hop(nodes: seq<Node>, from: nat, near: Forwarding.Near, accepts: nat -> nat)

  function Targets(h: Hop, frame: seq<Byte>): (ts: seq<nat>)
    requires |frame| >= TRAILER_LEN
  {
    Forwarding.Targets(h.nodes, h.from, frame, h.near)
  }

  /** What the directory writes to the node at position `k`; in every reachable registry the nodes'
      sockets are distinct, so this is what its stream gets. */
  function Inbox(h: Hop, frame: seq<Byte>, k: nat): seq<Byte>
    requires |frame| >= TRAILER_LEN
  {
    Forwarding.Inbox(Targets(h, frame), frame, h.accepts, k)
  }

  /** A node's bytes are exactly the message sent exactly when, until the frame is used up, only its
      own socket takes any bytes. */
  lemma WholeInboxIff(h: Hop, f: Frame, k: nat)
    requires FitsLengthByte(f) && |Encode(f)| >= TRAILER_LEN
    ensures var frame := Encode(f);
      var ts := Targets(h, frame);
      && (Parse(Inbox(h, frame, k)) == ([f], []) <==> Inbox(h, frame, k) == frame)
      && (Inbox(h, frame, k) == frame <==>
            exists n :: 0 <= n <= |ts| && Forwarding.TakesAll(|frame|, ts, Forwarding.Accepted(|ts|, h.accepts), k, n))
  {
    Forwarding.InboxIsWholeIff(Targets(h, Encode(f)), Encode(f), h.accepts, k);
    ArrivesWholeIff(f, Inbox(h, Encode(f), k));
  }

  /** The one node that a datagram for a plain address may go to. */
  predicate IsTarget(h: Hop, hostsRootAgent: bool, app: Location, dest: Char16, k: nat) {
    && k < |h.nodes| && k == FindAddr(h.nodes, dest, 0)
    && Forwarding.Allows(hostsRootAgent, app, h.near, h.nodes[k])
  }

  /** Unless the decoder takes it for a broadcast, a datagram goes to one node at most: a node gets the
      whole frame exactly when it is that one and its socket takes the frame at once. Any other share
      is cut short. */
  lemma UnicastInbox(h: Hop, d: Datagram, hostsRootAgent: bool, app: Location, k: nat)
    requires ValidLocation(app) && Decoded(d.dest) != Forwarding.BROADCAST
    ensures |DatagramFrame(d, hostsRootAgent, app)| >= TRAILER_LEN
    ensures var frame := DatagramFrame(d, hostsRootAgent, app);
      var inbox := Inbox(h, frame, k);
      && (inbox == frame || inbox < frame)
      && (inbox == frame <==> IsTarget(h, hostsRootAgent, app, Decoded(d.dest), k) && h.accepts(0) >= |frame|)
      && (!IsTarget(h, hostsRootAgent, app, Decoded(d.dest), k) ==> inbox == [])
  {
    var frame := DatagramFrame(d, hostsRootAgent, app);
    DatagramFrameEndsInTrailer(d, hostsRootAgent, app);
    Forwarding.UnicastTargets(h.nodes, h.from, d, hostsRootAgent, app, h.near);
    Forwarding.InboxOfOne(Targets(h, frame), frame, h.accepts, k);
  }

  /** The node is written to by the i-th write and no other. */
  predicate WrittenOnce(h: Hop, frame: seq<Byte>, k: nat, i: nat)
    requires |frame| >= TRAILER_LEN
  {
    var ts := Targets(h, frame);
    i < |ts| && ts[i] == k && forall j :: 0 <= j < |ts| && j != i ==> ts[j] != k
  }

  /** Where the shared buffer stands before the i-th write. */
  function Stand(h: Hop, frame: seq<Byte>, i: nat): nat
    requires |frame| >= TRAILER_LEN && i <= |Targets(h, frame)|
  {
    Forwarding.Position(|frame|, 0, Forwarding.Accepted(|Targets(h, frame)|, h.accepts), i)
  }

  lemma SliceVerdict(frame: seq<Byte>, p: nat, q: nat)
    requires 7 + TRAILER_LEN <= |frame| < 7 + TRAILER_LEN + 0x80 && p <= q <= |frame|
    requires p > 0 ==> frame[5] == -1
    ensures var n := |frame| - 7 - TRAILER_LEN;
      && (frame[p..q] == frame || (Silent(n, p, q) <==> NothingCarried(n, p, q)))
      && (Silent(n, p, q) ==> SilentShare(frame, frame[p..q]))
  {
    if p == 0 && q == |frame| {
      assert frame[p..q] == frame;
    } else {
      SilentIff(|frame| - 7 - TRAILER_LEN, p, q);
    }
  }

  /** Only a broadcast is written to a second node, so only a broadcast is cut mid-frame. */
  lemma CutMidFrame(h: Hop, frame: seq<Byte>, i: nat)
    requires |frame| >= TRAILER_LEN && i < |Targets(h, frame)| && Stand(h, frame, i) > 0
    ensures Forwarding.Destination(frame) == Forwarding.BROADCAST && frame[5] == -1
  {
    assert i > 0;
    CharAtIs(frame[4], frame[5]);
  }

  /** A node that is written to once gets the bytes between two positions of the buffer, which start
      mid-frame only when the directory reads the destination as the broadcast one. Other than the
      whole, they carry nothing for every broadcast of that length exactly when they start at 0 or are
      shorter than `Room`. */
  lemma ShareIsSlice(h: Hop, frame: seq<Byte>, k: nat, i: nat)
    requires 7 + TRAILER_LEN <= |frame| < 7 + TRAILER_LEN + 0x80 && WrittenOnce(h, frame, k, i)
    ensures var n, p, q := |frame| - 7 - TRAILER_LEN, Stand(h, frame, i), Stand(h, frame, i + 1);
      && p <= q <= |frame| && Inbox(h, frame, k) == frame[p..q]
      && (p > 0 ==> Forwarding.Destination(frame) == Forwarding.BROADCAST)
      && (Inbox(h, frame, k) == frame || (Silent(n, p, q) <==> NothingCarried(n, p, q)))
      && (Silent(n, p, q) ==> SilentShare(frame, Inbox(h, frame, k)))
  {
    Forwarding.InboxIsSlice(Targets(h, frame), frame, h.accepts, i);
    if Stand(h, frame, i) > 0 { CutMidFrame(h, frame, i); }
    SliceVerdict(frame, Stand(h, frame, i), Stand(h, frame, i + 1));
  }

  // ----- From filter to filter -----

  /** From Java up to the receiver's filter. `None` where nothing is signalled. */
  function Land(receiver: Word, d: Datagram, stack: seq<Octet>): Option<Arrival>
    requires |stack| == MAX_RADIO_MSG_DATA
  {
    if |d.payload| >= 0x80 then None
    else
      var got := HwReceive(receiver, d, stack);
      if got.None? then None else Some(Arrive(receiver, d.source, got.value))
  }

  /** What the receiver's filter makes of the datagrams handed up, in order. */
  function Signals(receiver: Word, ds: seq<Datagram>, stack: seq<Octet>): seq<Arrival>
    requires |stack| == MAX_RADIO_MSG_DATA
  {
    if ds == [] then []
    else
      match Land(receiver, ds[0], stack)
      case None => Signals(receiver, ds[1..], stack)
      case Some(a) => [a] + Signals(receiver, ds[1..], stack)
  }

  function Only(r: Option<Arrival>): seq<Arrival> {
    if r.None? then [] else [r.value]
  }

  lemma SignalsOfOne(receiver: Word, d: Datagram, stack: seq<Octet>)
    requires |stack| == MAX_RADIO_MSG_DATA
    ensures Signals(receiver, [d], stack) == Only(Land(receiver, d, stack))
  {
    assert [d][1..] == [];
  }

  /** Every datagram handed up is looked at, in order. */
  lemma {:induction false} SignalsAppend(receiver: Word, ds: seq<Datagram>, d: Datagram, stack: seq<Octet>)
    requires |stack| == MAX_RADIO_MSG_DATA
    ensures Signals(receiver, ds + [d], stack) == Signals(receiver, ds, stack) + Only(Land(receiver, d, stack))
    decreases |ds|
  {
    if ds == [] {
      assert ds + [d] == [d];
      SignalsOfOne(receiver, d, stack);
    } else {
      SignalsAppend(receiver, ds[1..], d, stack);
      assert (ds + [d])[1..] == ds[1..] + [d];
      var first, last := Only(Land(receiver, ds[0], stack)), Only(Land(receiver, d, stack));
      JoinedTwice(first, Signals(receiver, ds[1..], stack), last);
    }
  }

  /** The whole way from one node's filter to that of the node registered at position `k`: what the
      node signals of the bytes that this datagram puts on its stream. */
  function Travel(me: Word, addr: Word, m: Msg, h: Hop, k: nat, stack: seq<Octet>, hostsRootAgent: bool, app: Location)
    : seq<Arrival>
    requires ValidMsg(m) && |stack| == MAX_RADIO_MSG_DATA && ValidLocation(app) && k < |h.nodes|
  {
    var sent := SendFrom(me, addr, m);
    if !sent.Sub? then []
    else
      var handed := HwSend(true, me, sent.dest, sent.msg);
      if !handed.Handed? then []
      else
        var frame := DatagramFrame(handed.d, hostsRootAgent, app);
        Signals(h.nodes[k].addr, Carried(Inbox(h, frame, k)), stack)
  }

  /** What a node that gets the whole frame receives is what was passed down, its addresses decoded;
      a node whose share is silent receives nothing. */
  lemma TravelLands(me: Word, addr: Word, m: Msg, h: Hop, k: nat, stack: seq<Octet>,
                    hostsRootAgent: bool, app: Location, dest: Word, w: Msg, d: Datagram)
    requires ValidMsg(m) && |stack| == MAX_RADIO_MSG_DATA && ValidLocation(app) && k < |h.nodes|
    requires SendFrom(me, addr, m) == Sub(dest, w) && ValidMsg(w) && w.len <= HW_MAX_PAYLOAD && dest != me
    requires d == Datagram(Bytes(w.data[..w.len]), Low16(me), Low16(dest))
    ensures var frame := DatagramFrame(d, hostsRootAgent, app);
      var inbox, r := Inbox(h, frame, k), Travel(me, addr, m, h, k, stack, hostsRootAgent, app);
      && r == Signals(h.nodes[k].addr, Carried(inbox), stack)
      && (inbox == frame ==>
            r == Only(Land(h.nodes[k].addr, Datagram(d.payload, Decoded(d.source), Decoded(d.dest)), stack)))
      && (SilentShare(frame, inbox) ==> r == [])
  {
    var frame := DatagramFrame(d, hostsRootAgent, app);
    assert HwSend(true, me, dest, w) == Handed(d);
    FrameCarries(d, hostsRootAgent, app, Inbox(h, frame, k));
    SignalsOfOne(h.nodes[k].addr, Datagram(d.payload, Decoded(d.source), Decoded(d.dest)), stack);
  }

  /** Equal up to the bytes beyond the length. */
  predicate SameArrival(r: Arrival, r': Arrival) {
    match r
    case Dropped => r' == Dropped
    case OutOfBounds => r' == OutOfBounds
    case Delivered(source, m) =>
      && r'.Delivered? && r'.source == source && r'.msg.len == m.len
      && ValidMsg(m) && ValidMsg(r'.msg) && m.len <= MAX_RADIO_MSG_DATA && Content(r'.msg) == Content(m)
  }

  lemma SameRestores(r: Arrival, r': Arrival, source: Word, m: Msg)
    requires SameArrival(r, r') && Restores(r, source, m)
    ensures Restores(r', source, m)
  {
  }

  /** The filter looks at nothing beyond the length. */
  lemma SameContentArrives(me: Word, link: Word, m: Msg, m': Msg)
    requires ValidMsg(m) && ValidMsg(m') && 0 < m.len <= FILTER_MAX_PAYLOAD + FOOTER_LEN
    requires m'.len == m.len && Content(m') == Content(m)
    ensures SameArrival(Arrive(me, link, m), Arrive(me, link, m'))
  {
    assert forall i :: 0 <= i < m.len ==> m'.data[i] == Content(m')[i] && m.data[i] == Content(m)[i];
  }

  lemma LandsAsSent(receiver: Word, link: Char16, dest: Char16, w: Msg, stack: seq<Octet>)
    requires ValidMsg(w) && |stack| == MAX_RADIO_MSG_DATA && 0 < w.len <= HW_MAX_PAYLOAD
    ensures var r := Land(receiver, Datagram(Bytes(Content(w)), link, dest), stack);
      && (r.Some? <==> dest == receiver || dest == VirtualFilter.BROADCAST)
      && (r.Some? ==> SameArrival(Arrive(receiver, link, w), r.value))
  {
    var d := Datagram(Bytes(Content(w)), link, dest);
    BytesReceived(w, receiver, stack, d);
    var got := HwReceive(receiver, d, stack);
    if got.Some? {
      SameContentArrives(receiver, link, w, got.value);
    }
  }

  lemma PlainLands(me: Char16, dest: Char16, m: Msg, receiver: Word, stack: seq<Octet>)
    requires ValidMsg(m) && |stack| == MAX_RADIO_MSG_DATA
    requires 0 < m.len <= FILTER_MAX_PAYLOAD && m.data[0] <= 2
    ensures var r := Land(receiver, Datagram(Bytes(Content(m)), me, dest), stack);
      && (r.Some? <==> receiver == dest || dest == VirtualFilter.BROADCAST)
      && (r.Some? ==> Restores(r.value, me, m))
  {
    LandsAsSent(receiver, me, dest, m, stack);
  }

  /** What the gateway's filter restores from `w` it restores from `w` as it lands. */
  lemma FooterLands(w: Msg, link: Char16, dest: Char16, stack: seq<Octet>, source: Word, m: Msg)
    requires ValidMsg(w) && |stack| == MAX_RADIO_MSG_DATA && 0 < w.len <= HW_MAX_PAYLOAD
    requires dest == GATEWAY || dest == VirtualFilter.BROADCAST
    ensures var r := Land(GATEWAY, Datagram(Bytes(Content(w)), link, dest), stack);
      && r.Some?
      && (Arrive(GATEWAY, link, w) == Dropped ==> r.value == Dropped)
      && (Restores(Arrive(GATEWAY, link, w), source, m) ==> Restores(r.value, source, m))
  {
    var r := Arrive(GATEWAY, link, w);
    LandsAsSent(GATEWAY, link, dest, w, stack);
    if Restores(r, source, m) {
      SameRestores(r, Land(GATEWAY, Datagram(Bytes(Content(w)), link, dest), stack).value, source, m);
    }
  }

  /** The gateway restores `m` from `w` exactly when `addr` is its own or everybody's. */
  predicate Footed(w: Msg, link: Char16, source: Word, addr: Word, m: Msg) {
    && ValidMsg(w) && 0 < w.len <= HW_MAX_PAYLOAD
    && var r := Arrive(GATEWAY, link, w);
       if addr == GATEWAY || addr == VirtualFilter.BROADCAST then Restores(r, source, m) else r == Dropped
  }

  lemma FooterIsFooted(me: Word, addr: Word, m: Msg, link: Char16)
    requires ValidMsg(m) && 0 < m.len <= FILTER_MAX_PAYLOAD && m.data[0] <= 2
    requires me < 0x1_0000 && NeedsFooter(addr)
    ensures Footed(AddFooter(me, addr, m), link, me, addr, m)
  {
    UnwrapInverts(me, addr, m, GATEWAY, link);
  }

  /** The gateway drops `m` unless it is for the gateway or for everybody. */
  predicate AtGateway(r: seq<Arrival>, source: Word, addr: Word, m: Msg) {
    && |r| == 1
    && if addr == GATEWAY || addr == VirtualFilter.BROADCAST then Restores(r[0], source, m) else r[0] == Dropped
  }

  lemma GatewayLands(source: Word, addr: Word, m: Msg, w: Msg, link: Char16, dest: Char16, stack: seq<Octet>)
    requires |stack| == MAX_RADIO_MSG_DATA && (dest == GATEWAY || dest == VirtualFilter.BROADCAST)
    requires Footed(w, link, source, addr, m)
    ensures AtGateway(Only(Land(GATEWAY, Datagram(Bytes(Content(w)), link, dest), stack)), source, addr, m)
  {
    FooterLands(w, link, dest, stack, source, m);
  }

  /** The frame of a message for a plain address. */
  function PlainFrame(me: Char16, addr: Char16, m: Msg, hostsRootAgent: bool, app: Location): (frame: seq<Byte>)
    requires ValidMsg(m) && m.len <= FILTER_MAX_PAYLOAD && ValidLocation(app)
    ensures |frame| >= TRAILER_LEN
  {
    DatagramFrameEndsInTrailer(Datagram(Bytes(Content(m)), me, addr), hostsRootAgent, app);
    DatagramFrame(Datagram(Bytes(Content(m)), me, addr), hostsRootAgent, app)
  }

  /** A node that gets the whole frame, at the address that the decoder reads or for everybody, is
      signalled the datagram; one whose share is silent, as any share cut
      short is, is signalled nothing. Plain addresses that
      the decoder takes for the broadcast address are for everybody. */
  lemma PlainArrives(me: Word, addr: Word, m: Msg, h: Hop, k: nat, stack: seq<Octet>,
                     hostsRootAgent: bool, app: Location)
    requires ValidMsg(m) && |stack| == MAX_RADIO_MSG_DATA && ValidLocation(app) && k < |h.nodes|
    requires 0 < m.len <= FILTER_MAX_PAYLOAD && m.data[0] <= 2
    requires me < 0x1_0000 && addr < 0x1_0000 && !NeedsFooter(addr) && addr != me
    ensures var frame := PlainFrame(me, addr, m, hostsRootAgent, app);
      var inbox, r := Inbox(h, frame, k), Travel(me, addr, m, h, k, stack, hostsRootAgent, app);
      && (SilentShare(frame, inbox) ==> r == [])
      && (inbox == frame && (Decoded(addr) == h.nodes[k].addr || Decoded(addr) == Forwarding.BROADCAST) ==>
            |r| == 1 && Restores(r[0], Decoded(me), m))
  {
    TravelLands(me, addr, m, h, k, stack, hostsRootAgent, app, addr, m, Datagram(Bytes(m.data[..m.len]), me, addr));
    PlainLands(Decoded(me), Decoded(addr), m, h.nodes[k].addr, stack);
  }

  lemma CutOrWhole(d: Datagram, hostsRootAgent: bool, app: Location, share: seq<Byte>)
    requires ValidLocation(app)
    ensures var frame := DatagramFrame(d, hostsRootAgent, app);
      |frame| >= 7 + TRAILER_LEN && (share < frame ==> SilentShare(frame, share))
  {
    var frame := DatagramFrame(d, hostsRootAgent, app);
    DatagramFrameEndsInTrailer(d, hostsRootAgent, app);
    if share < frame { CutIsSilent(frame, share); }
  }

  /** Other plain addresses: a datagram arrives at the node registered at `k` exactly when that is the
      first node of the address the decoder reads, the location allows it, and its socket takes the
      whole frame at once. It arrives with the same bytes and length; the source is reported as
      decoded. */
  lemma PlainTravel(me: Word, addr: Word, m: Msg, h: Hop, k: nat, stack: seq<Octet>,
                    hostsRootAgent: bool, app: Location)
    requires ValidMsg(m) && |stack| == MAX_RADIO_MSG_DATA && ValidLocation(app) && k < |h.nodes|
    requires 0 < m.len <= FILTER_MAX_PAYLOAD && m.data[0] <= 2
    requires me < 0x1_0000 && addr < 0x1_0000 && !NeedsFooter(addr) && addr != me
    requires Decoded(addr) != Forwarding.BROADCAST
    ensures var frame := PlainFrame(me, addr, m, hostsRootAgent, app);
      var r := Travel(me, addr, m, h, k, stack, hostsRootAgent, app);
      && (IsTarget(h, hostsRootAgent, app, Decoded(addr), k) && h.accepts(0) >= |frame| ==>
            |r| == 1 && Restores(r[0], Decoded(me), m))
      && (!(IsTarget(h, hostsRootAgent, app, Decoded(addr), k) && h.accepts(0) >= |frame|) ==> r == [])
  {
    var d := Datagram(Bytes(Content(m)), me, addr);
    PlainArrives(me, addr, m, h, k, stack, hostsRootAgent, app);
    UnicastInbox(h, d, hostsRootAgent, app, k);
    CutOrWhole(d, hostsRootAgent, app, Inbox(h, DatagramFrame(d, hostsRootAgent, app), k));
  }

  function FootedDest(addr: Word): (dest: Char16)
    ensures Decoded(dest) == dest
  {
    if addr != VirtualFilter.BROADCAST then GATEWAY else VirtualFilter.BROADCAST
  }

  /** The frame of a virtual or broadcast message. */
  function FootedFrame(me: Word, addr: Word, m: Msg, hostsRootAgent: bool, app: Location): (frame: seq<Byte>)
    requires ValidMsg(m) && m.len <= FILTER_MAX_PAYLOAD && ValidLocation(app)
    ensures |frame| >= TRAILER_LEN
  {
    var d := Datagram(Bytes(Content(AddFooter(me, addr, m))), Low16(me), FootedDest(addr));
    DatagramFrameEndsInTrailer(d, hostsRootAgent, app);
    DatagramFrame(d, hostsRootAgent, app)
  }

  /** What any node signals of a virtual or broadcast message is what its share carries. */
  lemma FootedTravel(me: Word, addr: Word, m: Msg, h: Hop, k: nat, stack: seq<Octet>,
                     hostsRootAgent: bool, app: Location)
    requires ValidMsg(m) && |stack| == MAX_RADIO_MSG_DATA && ValidLocation(app) && k < |h.nodes|
    requires m.len <= FILTER_MAX_PAYLOAD && me < 0x1_0000 && NeedsFooter(addr) && me != FootedDest(addr)
    ensures Travel(me, addr, m, h, k, stack, hostsRootAgent, app)
         == Signals(h.nodes[k].addr, Carried(Inbox(h, FootedFrame(me, addr, m, hostsRootAgent, app), k)), stack)
  {
    var w, dest := AddFooter(me, addr, m), FootedDest(addr);
    TravelLands(me, addr, m, h, k, stack, hostsRootAgent, app, dest, w, Datagram(Bytes(w.data[..w.len]), me, dest));
  }

  /** Virtual and broadcast addresses at a node registered with the gateway's address. One that gets
      the whole frame delivers it exactly when it is for the gateway or for everybody, and reports
      the exact source, whatever the link makes of it; one whose share is silent gets nothing. */
  lemma GatewayTravel(me: Word, addr: Word, m: Msg, h: Hop, k: nat, stack: seq<Octet>,
                      hostsRootAgent: bool, app: Location)
    requires ValidMsg(m) && |stack| == MAX_RADIO_MSG_DATA && ValidLocation(app)
    requires 0 < m.len <= FILTER_MAX_PAYLOAD && m.data[0] <= 2
    requires me < 0x1_0000 && NeedsFooter(addr) && me != FootedDest(addr)
    requires k < |h.nodes| && h.nodes[k].addr == GATEWAY
    ensures var frame := FootedFrame(me, addr, m, hostsRootAgent, app);
      var inbox, r := Inbox(h, frame, k), Travel(me, addr, m, h, k, stack, hostsRootAgent, app);
      && (SilentShare(frame, inbox) ==> r == [])
      && (inbox == frame ==> AtGateway(r, me, addr, m))
  {
    var w, dest := AddFooter(me, addr, m), FootedDest(addr);
    TravelLands(me, addr, m, h, k, stack, hostsRootAgent, app, dest, w, Datagram(Bytes(w.data[..w.len]), me, dest));
    FooterIsFooted(me, addr, m, Decoded(me));
    GatewayLands(me, addr, m, w, Decoded(me), dest, stack);
  }

  /** For a virtual address the gateway's share is whole exactly when its node is the first of its
      address, the location allows it, and its socket takes the whole frame at once; otherwise it is
      cut short. */
  lemma VirtualInbox(me: Word, addr: Word, m: Msg, h: Hop, k: nat, hostsRootAgent: bool, app: Location)
    requires ValidMsg(m) && ValidLocation(app) && m.len <= FILTER_MAX_PAYLOAD && IsAddrVirtual(addr)
    ensures var frame := FootedFrame(me, addr, m, hostsRootAgent, app);
      && (Inbox(h, frame, k) == frame || Inbox(h, frame, k) < frame)
      && (Inbox(h, frame, k) == frame <==>
            IsTarget(h, hostsRootAgent, app, GATEWAY, k) && h.accepts(0) >= |frame|)
      && (!IsTarget(h, hostsRootAgent, app, GATEWAY, k) ==> Inbox(h, frame, k) == [])
  {
    var d := Datagram(Bytes(Content(AddFooter(me, addr, m))), Low16(me), GATEWAY);
    var frame := FootedFrame(me, addr, m, hostsRootAgent, app);
    assert frame == DatagramFrame(d, hostsRootAgent, app);
    UnicastInbox(h, d, hostsRootAgent, app, k);
  }

  /** A broadcast at a node of address `receiver`: restored when the sender or the receiver is the
      gateway, else delivered with its footer and a virtual type. */
  predicate GotBroadcast(r: seq<Arrival>, receiver: Word, link: Word, source: Word, m: Msg) {
    && |r| == 1
    && if receiver == GATEWAY || link == GATEWAY then Restores(r[0], source, m)
       else r[0].Delivered? && r[0].source == link && ValidMsg(r[0].msg) && IsTypeVirtual(r[0].msg.data[0])
  }

  lemma BroadcastLands(me: Char16, m: Msg, receiver: Word, link: Char16, stack: seq<Octet>)
    requires ValidMsg(m) && |stack| == MAX_RADIO_MSG_DATA && 0 < m.len <= FILTER_MAX_PAYLOAD && m.data[0] <= 2
    ensures var w := AddFooter(me, VirtualFilter.BROADCAST, m);
      GotBroadcast(Only(Land(receiver, Datagram(Bytes(Content(w)), link, VirtualFilter.BROADCAST), stack)),
                   receiver, link, me, m)
  {
    var w := AddFooter(me, VirtualFilter.BROADCAST, m);
    var r := Land(receiver, Datagram(Bytes(Content(w)), link, VirtualFilter.BROADCAST), stack);
    FilterRoundTrip(me, VirtualFilter.BROADCAST, m, receiver, link);
    LandsAsSent(receiver, link, VirtualFilter.BROADCAST, w, stack);
    if receiver == GATEWAY || link == GATEWAY {
      SameRestores(Arrive(receiver, link, w), r.value, me, m);
    } else {
      assert Content(r.value.msg)[0] == Content(w)[0];
    }
  }

  /** The broadcast address at any registered node: one that gets the whole frame out of the shared
      buffer receives the broadcast, one whose share is silent receives nothing. */
  lemma BroadcastTravel(me: Word, m: Msg, h: Hop, k: nat, stack: seq<Octet>, hostsRootAgent: bool, app: Location)
    requires ValidMsg(m) && |stack| == MAX_RADIO_MSG_DATA && ValidLocation(app) && k < |h.nodes|
    requires 0 < m.len <= FILTER_MAX_PAYLOAD && m.data[0] <= 2
    requires me < 0x1_0000 && me != VirtualFilter.BROADCAST
    ensures var frame := FootedFrame(me, VirtualFilter.BROADCAST, m, hostsRootAgent, app);
      var inbox, r := Inbox(h, frame, k), Travel(me, VirtualFilter.BROADCAST, m, h, k, stack, hostsRootAgent, app);
      && (SilentShare(frame, inbox) ==> r == [])
      && (inbox == frame ==> GotBroadcast(r, h.nodes[k].addr, Decoded(me), me, m))
  {
    var w, dest := AddFooter(me, VirtualFilter.BROADCAST, m), FootedDest(VirtualFilter.BROADCAST);
    TravelLands(me, VirtualFilter.BROADCAST, m, h, k, stack, hostsRootAgent, app, dest, w,
                Datagram(Bytes(w.data[..w.len]), me, dest));
    BroadcastLands(me, m, h.nodes[k].addr, Decoded(me), stack);
  }

  // ----- The same way through the imperative components -----

  /** A datagram through the sender's wrapper, writer and socket, the directory's reader and request
      handler, and the reader and unwrapper of the node at position `k`, for any sizes of reads and
      writes. What the node's Java side hands up is what its share carries: the datagram when that is the
      whole frame, and nothing when it is silent. */
  method Relay(d: Datagram, hostsRootAgent: bool, app: Location, drain: seq<nat>, up: seq<nat>,
               handler: DirectoryServer.RequestHandler, near: Forwarding.Near, now: int, accepts: nat -> nat,
               k: nat, down: seq<nat>)
    returns (inbox: seq<Byte>, r: seq<Datagram>)
    requires ValidLocation(app) && |d.payload| < 0x80
    requires Sum(drain) >= |DatagramFrame(d, hostsRootAgent, app)|
    requires Arrivals(up) >= |DatagramFrame(d, hostsRootAgent, app)|
    modifies handler, handler.registry
    ensures |DatagramFrame(d, hostsRootAgent, app)| >= TRAILER_LEN
    ensures handler.registry.State() == Touch(old(handler.registry.State()), handler.sock, now)
    ensures var frame := DatagramFrame(d, hostsRootAgent, app);
      && inbox == Inbox(Hop(handler.registry.reg, handler.sock, near, accepts), frame, k)
      && (Arrivals(down) >= |inbox| ==>
           && r == Carried(inbox)
           && (inbox == frame ==> r == [Datagram(d.payload, Decoded(d.source), Decoded(d.dest))])
           && (SilentShare(frame, inbox) ==> r == []))
      && (inbox < frame ==> r == [])
  {
    ghost var f := Message(d, hostsRootAgent, app);
    MessageIsFrame(d, hostsRootAgent, app);
    var wire := SenderWrites(d, hostsRootAgent, app, drain);
    var request := DirectoryGets(f, wire, up);
    inbox := Forward(request, handler, near, now, accepts, k);
    ghost var got;
    r, got := ClientGets(inbox, down);
    FrameCarries(d, hostsRootAgent, app, inbox);
    if inbox < Encode(f) {
      CutOrWhole(d, hostsRootAgent, app, got);
      FrameCarries(d, hostsRootAgent, app, got);
    }
  }

  method SenderWrites(d: Datagram, hostsRootAgent: bool, app: Location, drain: seq<nat>) returns (wire: seq<Byte>)
    requires ValidLocation(app) && |d.payload| < 0x80
    requires Sum(drain) >= |DatagramFrame(d, hostsRootAgent, app)|
    ensures wire == DatagramFrame(d, hostsRootAgent, app)
  {
    var msg := SendPacket(d.payload, |d.payload|, d.source, d.dest);
    OctetOfByte(5 + |d.payload|);
    assert d.payload[..|d.payload|] == d.payload;
    var frame := BuildFrame(msg.value, hostsRootAgent, app);
    var done;
    wire, done := WriteAll(frame.value, drain);
  }

  /** The directory's reader on the sender's stream. */
  method DirectoryGets(ghost f: Frame, wire: seq<Byte>, pieces: seq<nat>) returns (request: Frame)
    requires FitsLengthByte(f) && wire == Encode(f) && Arrivals(pieces) >= |wire|
    ensures request == f
  {
    var s := new Stream(wire, pieces);
    var requests := ServeRequests(s);
    ArrivesWholeIff(f, wire);
    assert s.incoming == [] && s.consumed == wire;
    request := requests[0];
  }

  /** The request handler on a datagram, and what it puts on the stream of the node at `k`. */
  method Forward(f: Frame, handler: DirectoryServer.RequestHandler, near: Forwarding.Near, now: int,
                 accepts: nat -> nat, k: nat) returns (inbox: seq<Byte>)
    requires |Encode(f)| >= TRAILER_LEN
    modifies handler, handler.registry
    ensures handler.registry.State() == Touch(old(handler.registry.State()), handler.sock, now)
    ensures inbox == Inbox(Hop(handler.registry.reg, handler.sock, near, accepts), Encode(f), k)
  {
    var header := [f.kind, ToByte(|f.payload|)];
    var ok, targets, pieces := handler.Serve(header, f.payload, now, near, accepts);
    inbox := Forwarding.Share(targets, pieces, k);
  }

  /** The client's reader and unwrapper on what it was sent, of which it reads `got`. */
  method ClientGets(bytes: seq<Byte>, pieces: seq<nat>) returns (r: seq<Datagram>, ghost got: seq<Byte>)
    ensures got <= bytes && r == Carried(got)
    ensures Arrivals(pieces) >= |bytes| ==> r == Carried(bytes)
  {
    var s := new Stream(bytes, pieces);
    var task := new ReadTask();
    var ended := task.Run(s);
    r := Unwrap(task.log);
    got := s.consumed;
    if ended {
      EndedSawAll(got, s.incoming);
    } else if Arrivals(pieces) >= |bytes| {
      assert s.incoming == [] && got == bytes;
    }
  }

  /** The thread that takes what the reader has queued, and stops where unwrapping throws. */
  method Unwrap(log: seq<Received>) returns (ds: seq<Datagram>)
    ensures ds == HandedOver(log)
  {
    ds := [];
    for i := 0 to |log|
      invariant ds + HandedOver(log[i..]) == HandedOver(log)
    {
      assert log[i..][0] == log[i] && log[i..][1..] == log[i + 1..];
      if Ends(log[i]) {
        return;
      }
      if log[i].kind == POBICOS_MSG {
        var d := ReceivedPacket(NetworkMsg(log[i].kind, ToByte(log[i].len), log[i].payload.value));
        if d.None? {
          return;
        }
        assert ds + ([d.value] + HandedOver(log[i + 1..])) == (ds + [d.value]) + HandedOver(log[i + 1..]);
        ds := ds + [d.value];
      }
    }
  }
}
