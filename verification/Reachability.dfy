/** Whom the directory can reach at all, given the addresses it hands out; and a run in which a node
    is signalled a datagram that nobody sent. */
module Reachability {
  import opened Words
  import opened Serialization
  import opened NetworkPackets
  import opened StreamFraming
  import opened VirtualFilter
  import opened DirectoryModel
  import opened MidFrame
  import opened DatagramPath
  import Forwarding

  // ----- The gateway's address -----

  /** After any run of the directory the gateway's address is that of the 65536th node registered. */
  lemma GatewayAddressIsAssigned(es: seq<Event>)
    ensures var ns := Run(Initial(), es).registry.nodes;
      FindAddr(ns, GATEWAY, 0) == if |ns| >= 0x1_0000 then 0xffff else |ns|
  {
    DirectoryFromStart(es);
    FirstOfAddress(Run(Initial(), es).registry, GATEWAY);
  }

  /** Until then a datagram for a virtual address puts no byte on any node's stream. */
  lemma VirtualReachesNobody(es: seq<Event>, me: Word, addr: Word, m: Msg, h: Hop, k: nat,
                             hostsRootAgent: bool, app: Location)
    requires ValidMsg(m) && ValidLocation(app) && m.len <= FILTER_MAX_PAYLOAD && IsAddrVirtual(addr)
    requires h.nodes == Run(Initial(), es).registry.nodes && |h.nodes| < 0x1_0000
    ensures Inbox(h, FootedFrame(me, addr, m, hostsRootAgent, app), k) == []
  {
    GatewayAddressIsAssigned(es);
    VirtualInbox(me, addr, m, h, k, hostsRootAgent, app);
  }

  // ----- Which nodes can be reached at their own address -----

  /** Everybody is near, and no socket but the node's own takes a byte of `frame`. */
  ghost predicate Favourable(h: Hop, frame: seq<Byte>, k: nat)
    requires |frame| >= TRAILER_LEN
  {
    && (forall lat, lon, l :: h.near(lat, lon, l))
    && Forwarding.Favours(Targets(h, frame), |frame|, h.accepts, k)
  }

  /** Such conditions exist for every registry, sender, frame and node. */
  function FavourableHop(nodes: seq<Node>, from: nat, frame: seq<Byte>, k: nat): (h: Hop)
    requires |frame| >= TRAILER_LEN
    ensures h.nodes == nodes && h.from == from && Favourable(h, frame, k)
  {
    var near := (_, _, _) => true;
    var ts := Forwarding.Targets(nodes, from, frame, near);
    Hop(nodes, from, near, (i: nat) => if i < |ts| && ts[i] == k then |frame| else 0)
  }

  /** The addresses whose nodes a datagram can reach: those the decoder reads right or takes for a
      broadcast, outside the pool that the filter sends to the gateway. */
  predicate Reachable(a: Char16) {
    (SignSafe(a) || a % 0x100 == 0xff) && !(VIRTUAL_POOL_START <= a < VIRTUAL_POOL_START + VIRTUAL_POOL_RANGE)
  }

  /** The frame that the node `me` sends a message to `a` in. */
  function SentFrame(me: Word, a: Char16, m: Msg, hostsRootAgent: bool, app: Location): (frame: seq<Byte>)
    requires ValidMsg(m) && m.len <= FILTER_MAX_PAYLOAD && ValidLocation(app) && me < 0x1_0000
    ensures |frame| >= TRAILER_LEN
  {
    if NeedsFooter(a) then FootedFrame(me, a, m, hostsRootAgent, app)
    else PlainFrame(me, a, m, hostsRootAgent, app)
  }

  lemma FavouredInbox(h: Hop, frame: seq<Byte>, k: nat)
    requires |frame| >= TRAILER_LEN && Favourable(h, frame, k)
    ensures Inbox(h, frame, k) == if k in Targets(h, frame) then frame else []
  {
    Forwarding.InboxOfFavoured(Targets(h, frame), frame, h.accepts, k);
  }

  /** A broadcast is written to each node but the sender's when everybody is near. */
  lemma BroadcastIsForAll(h: Hop, frame: seq<Byte>, k: nat)
    requires |frame| >= TRAILER_LEN && Forwarding.Destination(frame) == Forwarding.BROADCAST
    requires k < |h.nodes| && h.nodes[k].sock != h.from && forall lat, lon, l :: h.near(lat, lon, l)
    ensures k in Targets(h, frame)
  {
    Forwarding.LoopReaches(h.nodes, |h.nodes|, h.from, frame, h.near);
  }

  lemma DestinationIs(d: Datagram, hostsRootAgent: bool, app: Location)
    requires ValidLocation(app)
    ensures |DatagramFrame(d, hostsRootAgent, app)| >= TRAILER_LEN
    ensures Forwarding.Destination(DatagramFrame(d, hostsRootAgent, app)) == Decoded(d.dest)
  {
    DirectoryReadsTheDestination(d, hostsRootAgent, app);
    DatagramFrameEndsInTrailer(d, hostsRootAgent, app);
  }

  /** The first node of an address is the only one. */
  lemma OnlyOfItsAddress(ns: seq<Node>, k: nat, a: Char16)
    requires AddressesDistinct(ns) && k < |ns|
    ensures FindAddr(ns, a, 0) == k <==> ns[k].addr == a
  {
    assert FindAddr(ns, a, 0) <= |ns|;
  }

  lemma PlainReaches(me: Word, m: Msg, h: Hop, k: nat, stack: seq<Octet>, hostsRootAgent: bool, app: Location)
    requires ValidMsg(m) && |stack| == MAX_RADIO_MSG_DATA && ValidLocation(app)
    requires 0 < m.len <= FILTER_MAX_PAYLOAD && m.data[0] <= 2 && me < 0x1_0000
    requires AddressesDistinct(h.nodes) && k < |h.nodes| && me != h.nodes[k].addr && h.from != h.nodes[k].sock
    requires !NeedsFooter(h.nodes[k].addr)
    requires Favourable(h, SentFrame(me, h.nodes[k].addr, m, hostsRootAgent, app), k)
    ensures Travel(me, h.nodes[k].addr, m, h, k, stack, hostsRootAgent, app) != []
      <==> SignSafe(h.nodes[k].addr) || h.nodes[k].addr % 0x100 == 0xff
  {
    var a := h.nodes[k].addr;
    var d := Datagram(Bytes(Content(m)), me, a);
    var frame := DatagramFrame(d, hostsRootAgent, app);
    CharAtRoundTripIff(a);
    FavouredInbox(h, frame, k);
    if Decoded(a) == Forwarding.BROADCAST {
      DestinationIs(d, hostsRootAgent, app);
      BroadcastIsForAll(h, frame, k);
      PlainArrives(me, a, m, h, k, stack, hostsRootAgent, app);
    } else {
      OnlyOfItsAddress(h.nodes, k, Decoded(a));
      UnicastInbox(h, d, hostsRootAgent, app, k);
      PlainTravel(me, a, m, h, k, stack, hostsRootAgent, app);
      TargetAccepts(h, d, hostsRootAgent, app, k);
    }
  }

  /** In favourable conditions a plain target takes the frame at once. */
  lemma TargetAccepts(h: Hop, d: Datagram, hostsRootAgent: bool, app: Location, k: nat)
    requires ValidLocation(app) && Decoded(d.dest) != Forwarding.BROADCAST
    requires |DatagramFrame(d, hostsRootAgent, app)| >= TRAILER_LEN
    requires Favourable(h, DatagramFrame(d, hostsRootAgent, app), k)
    ensures var frame := DatagramFrame(d, hostsRootAgent, app);
      && (IsTarget(h, hostsRootAgent, app, Decoded(d.dest), k) <==>
            k < |h.nodes| && k == FindAddr(h.nodes, Decoded(d.dest), 0))
      && (IsTarget(h, hostsRootAgent, app, Decoded(d.dest), k) ==> h.accepts(0) >= |frame|)
  {
    Forwarding.UnicastTargets(h.nodes, h.from, d, hostsRootAgent, app, h.near);
  }

  lemma PoolReachesNot(me: Word, m: Msg, h: Hop, k: nat, stack: seq<Octet>, hostsRootAgent: bool, app: Location)
    requires ValidMsg(m) && |stack| == MAX_RADIO_MSG_DATA && ValidLocation(app)
    requires 0 < m.len <= FILTER_MAX_PAYLOAD && me < 0x1_0000
    requires k < |h.nodes| && IsAddrVirtual(h.nodes[k].addr) && h.nodes[k].addr != GATEWAY
    ensures Travel(me, h.nodes[k].addr, m, h, k, stack, hostsRootAgent, app) == []
  {
    var a := h.nodes[k].addr;
    VirtualInbox(me, a, m, h, k, hostsRootAgent, app);
    if me != GATEWAY {
      FootedTravel(me, a, m, h, k, stack, hostsRootAgent, app);
      assert Carried([]) == [];
    }
  }

  lemma GatewayReached(me: Word, m: Msg, h: Hop, k: nat, stack: seq<Octet>, hostsRootAgent: bool, app: Location)
    requires ValidMsg(m) && |stack| == MAX_RADIO_MSG_DATA && ValidLocation(app)
    requires 0 < m.len <= FILTER_MAX_PAYLOAD && m.data[0] <= 2 && me < 0x1_0000
    requires AddressesDistinct(h.nodes) && k < |h.nodes| && h.nodes[k].addr == GATEWAY && me != GATEWAY
    requires Favourable(h, FootedFrame(me, GATEWAY, m, hostsRootAgent, app), k)
    ensures Travel(me, GATEWAY, m, h, k, stack, hostsRootAgent, app) != []
  {
    var w := AddFooter(me, GATEWAY, m);
    OnlyOfItsAddress(h.nodes, k, GATEWAY);
    TargetAccepts(h, Datagram(Bytes(Content(w)), Low16(me), FootedDest(GATEWAY)), hostsRootAgent, app, k);
    VirtualInbox(me, GATEWAY, m, h, k, hostsRootAgent, app);
    GatewayTravel(me, GATEWAY, m, h, k, stack, hostsRootAgent, app);
  }

  lemma BroadcastReached(me: Word, m: Msg, h: Hop, k: nat, stack: seq<Octet>, hostsRootAgent: bool, app: Location)
    requires ValidMsg(m) && |stack| == MAX_RADIO_MSG_DATA && ValidLocation(app)
    requires 0 < m.len <= FILTER_MAX_PAYLOAD && m.data[0] <= 2 && me < 0x1_0000
    requires me != VirtualFilter.BROADCAST
    requires k < |h.nodes| && h.from != h.nodes[k].sock
    requires Favourable(h, FootedFrame(me, VirtualFilter.BROADCAST, m, hostsRootAgent, app), k)
    ensures Travel(me, VirtualFilter.BROADCAST, m, h, k, stack, hostsRootAgent, app) != []
  {
    var frame := FootedFrame(me, VirtualFilter.BROADCAST, m, hostsRootAgent, app);
    var w := AddFooter(me, VirtualFilter.BROADCAST, m);
    DestinationIs(Datagram(Bytes(Content(w)), Low16(me), FootedDest(VirtualFilter.BROADCAST)), hostsRootAgent, app);
    FavouredInbox(h, frame, k);
    BroadcastIsForAll(h, frame, k);
    BroadcastTravel(me, m, h, k, stack, hostsRootAgent, app);
  }

  /** While addresses are distinct, a datagram that another node sends to a node's own address arrives,
      in favourable conditions, exactly when the address is `Reachable`. */
  lemma OwnAddressReachesIff(me: Word, m: Msg, h: Hop, k: nat, stack: seq<Octet>, hostsRootAgent: bool, app: Location)
    requires ValidMsg(m) && |stack| == MAX_RADIO_MSG_DATA && ValidLocation(app)
    requires 0 < m.len <= FILTER_MAX_PAYLOAD && m.data[0] <= 2 && me < 0x1_0000
    requires AddressesDistinct(h.nodes) && k < |h.nodes| && me != h.nodes[k].addr && h.from != h.nodes[k].sock
    requires Favourable(h, SentFrame(me, h.nodes[k].addr, m, hostsRootAgent, app), k)
    ensures Travel(me, h.nodes[k].addr, m, h, k, stack, hostsRootAgent, app) != [] <==> Reachable(h.nodes[k].addr)
  {
    var a := h.nodes[k].addr;
    if a == VirtualFilter.BROADCAST {
      BroadcastReached(me, m, h, k, stack, hostsRootAgent, app);
    } else if a == GATEWAY {
      GatewayReached(me, m, h, k, stack, hostsRootAgent, app);
    } else if IsAddrVirtual(a) {
      PoolReachesNot(me, m, h, k, stack, hostsRootAgent, app);
    } else {
      PlainReaches(me, m, h, k, stack, hostsRootAgent, app);
    }
  }

  // ----- A datagram that nobody sent -----

  function ForgedContent(): (m: Msg)
    ensures ValidMsg(m)
  {
    Msg(8, [0, 1, 27, 0, 9, 255, 255, 0] + seq(52, _ => 0))
  }

  /** The first socket takes 8 bytes of the shared buffer, the second all that is left. */
  function EightThenAll(i: nat): nat {
    if i == 0 then 8 else 37
  }

  /** What node 3 broadcasts, footer included. */
  const FOOTED: seq<Byte> := [3, 1, 27, 0, 9, -1, -1, 0, 0, 3, -1, -1]

  function ForgedBytes(): (frame: seq<Byte>)
    ensures |frame| == 37 && frame[4] == -1 && frame[5] == -1
    ensures frame[8] == 1 && frame[9] == 27 && frame[10] == 0 && frame[11] == 9
    ensures frame[12] == -1 && frame[13] == -1 && frame[14] == 0
    ensures forall i :: 19 <= i < 37 ==> frame[i] == 0
  {
    var front := [1, 35, 0, 3, -1, -1, 12, 3, 1, 27, 0, 9, -1, -1, 0, 0, 3, -1, -1];
    front + Zeros(TRAILER_LEN)
  }

  lemma ForgedPayload()
    ensures var w := AddFooter(3, VirtualFilter.BROADCAST, ForgedContent());
      w.len == 12 && Bytes(Content(w)) == FOOTED
  {
    var w := AddFooter(3, VirtualFilter.BROADCAST, ForgedContent());
    assert Content(w) == [3, 1, 27, 0, 9, 255, 255, 0, 0, 3, 255, 255];
  }

  lemma ForgedFrame(app: Location)
    requires ValidLocation(app)
    ensures DatagramFrame(Datagram(FOOTED, 3, 0xffff), false, app)
         == ForgedBytes()
  {
    ForgedWrapped();
  }

  lemma ForgedWrapped()
    ensures Wrapped(Datagram(FOOTED, 3, 0xffff)) == [0, 3, -1, -1, 12] + FOOTED
  {
    assert HighByte(3) == 0 && LowByte(3) == 3 && HighByte(0xffff) == -1 && LowByte(0xffff) == -1;
  }

  lemma DestinationOnes(frame: seq<Byte>)
    requires |frame| == 37 && frame[4] == -1 && frame[5] == -1
    ensures Forwarding.Destination(frame) == 0xffff
  {
    CharAtIs(-1, -1);
  }

  lemma NoLocation(frame: seq<Byte>)
    requires |frame| == 37 && frame[19] == 0 && frame[20] == 0
    ensures !Forwarding.IsSet(Forwarding.LocationAt(frame))
  {
    CharOfIs(0, 0);
    assert Forwarding.LocationAt(frame).radius == CharOf(frame[19], frame[20]);
  }

  /** Two nodes, then the sender's. */
  predicate SenderThird(ns: seq<Node>, from: nat) {
    && |ns| == 3 && ns[0].sock != from && ns[1].sock != from && ns[2].sock == from
    && forall i :: 0 <= i < 3 ==> ns[i].addr != 0xffff
  }

  lemma ForgedTargets(ns: seq<Node>, from: nat, near: Forwarding.Near)
    requires SenderThird(ns, from)
    ensures Forwarding.Targets(ns, from, ForgedBytes(), near) == [0, 1]
  {
    DestinationOnes(ForgedBytes());
    NoLocation(ForgedBytes());
    TwoOthers(ns, from, ForgedBytes(), near);
  }

  lemma TwoOthers(ns: seq<Node>, from: nat, frame: seq<Byte>, near: Forwarding.Near)
    requires |frame| >= TRAILER_LEN && Forwarding.Destination(frame) == 0xffff
    requires !Forwarding.IsSet(Forwarding.LocationAt(frame)) && SenderThird(ns, from)
    ensures Forwarding.Targets(ns, from, frame, near) == [0, 1]
  {
    assert FindAddr(ns, 0xffff, 0) == 3;
    assert Forwarding.IsOther(ns[0], from, frame, near) && Forwarding.IsOther(ns[1], from, frame, near);
    assert Forwarding.BroadcastTargets(ns, 0, from, frame, near) == [];
    assert Forwarding.BroadcastTargets(ns, 1, from, frame, near) == [0];
    assert Forwarding.BroadcastTargets(ns, 2, from, frame, near) == [0, 1];
    assert Forwarding.BroadcastTargets(ns, 3, from, frame, near) == [0, 1];
  }

  lemma EmptyDatagramCarried(b: seq<Byte>)
    requires |b| == 29 && b[0] == 1 && b[1] == 27 && b[2] == 0 && b[3] == 9 && b[4] == -1 && b[5] == -1 && b[6] == 0
    ensures Carried(b) == [Datagram([], 9, 0xffff)]
  {
    CarriedIsAfterNothing(b);
    CarriedSplits(b, None);
    var p := b[2..29];
    CharAtIs(0, 9);
    CharAtIs(-1, -1);
    assert p[5..5] == [];
    assert Unwrapped(p) == Some(Datagram([], 9, 0xffff));
    assert b[29..] == [];
    IncompleteCarriesNothing([], Some(p));
  }

  lemma ForgedLands(receiver: Word, stack: seq<Octet>)
    requires |stack| == MAX_RADIO_MSG_DATA && receiver != GATEWAY
    ensures Land(receiver, Datagram([], 9, 0xffff), stack) == Some(Delivered(9, Msg(0, stack)))
  {
    assert OctetsOf([]) + stack[0..] == stack;
  }

  lemma ForgedInbox(ns: seq<Node>, from: nat, near: Forwarding.Near)
    requires SenderThird(ns, from)
    ensures Inbox(Hop(ns, from, near, EightThenAll), ForgedBytes(), 1) == ForgedBytes()[8..37]
  {
    ForgedTargets(ns, from, near);
    Forwarding.InboxIsSlice([0, 1], ForgedBytes(), EightThenAll, 1);
    var xs := Forwarding.Accepted(2, EightThenAll);
    assert xs == [8, 37];
    assert [8, 37][..1] == [8] && [8, 37][..2] == [8, 37] && [8][..0] == [];
    assert Sum([8]) == 8 && Sum([8, 37]) == 45;
  }

  /** Whole or not at all is false of broadcasts. After any run of the directory in which three nodes
      have registered, the third broadcasts eight bytes; the first node takes 8 bytes of the frame at
      once and the second all the rest. The second is signalled an empty datagram from node 9, which
      does not exist. */
  lemma ForgedBroadcast(es: seq<Event>, near: Forwarding.Near, app: Location, stack: seq<Octet>)
    requires ValidLocation(app) && |stack| == MAX_RADIO_MSG_DATA
    requires |Run(Initial(), es).registry.nodes| == 3
    ensures var ns := Run(Initial(), es).registry.nodes;
      var h := Hop(ns, ns[2].sock, near, EightThenAll);
      && ns[1].addr == 2 && ns[2].addr == 3
      && Travel(3, VirtualFilter.BROADCAST, ForgedContent(), h, 1, stack, false, app) == [Delivered(9, Msg(0, stack))]
  {
    var ns := Run(Initial(), es).registry.nodes;
    DirectoryFromStart(es);
    ForgedTravel(ns, ns[2].sock, near, app, stack);
  }

  lemma ForgedTravel(ns: seq<Node>, from: nat, near: Forwarding.Near, app: Location, stack: seq<Octet>)
    requires ValidLocation(app) && |stack| == MAX_RADIO_MSG_DATA
    requires SenderThird(ns, from) && ns[1].addr != GATEWAY
    ensures Travel(3, VirtualFilter.BROADCAST, ForgedContent(), Hop(ns, from, near, EightThenAll), 1, stack, false, app)
         == [Delivered(9, Msg(0, stack))]
  {
    var m, h := ForgedContent(), Hop(ns, from, near, EightThenAll);
    var w := AddFooter(3, VirtualFilter.BROADCAST, m);
    ForgedPayload();
    ForgedFrame(app);
    TravelLands(3, VirtualFilter.BROADCAST, m, h, 1, stack, false, app, VirtualFilter.BROADCAST, w,
                Datagram(FOOTED, 3, 0xffff));
    ForgedInbox(ns, from, near);
    EmptyDatagramCarried(ForgedBytes()[8..37]);
    SignalsOfOne(ns[1].addr, Datagram([], 9, 0xffff), stack);
    ForgedLands(ns[1].addr, stack);
  }

  function Joining(sock: nat): Event {
    Arrival(sock, REGISTRY_REQ, RequestBytes(Zeros(8), Zeros(8), 0, 0), 0, 1)
  }

  lemma JoinAdmits(d: Directory, sock: nat) returns (n: Node)
    requires d.alive && !IsRegistered(d.registry.nodes, sock)
    ensures var d' := Step(d, Joining(sock));
      d'.alive && d'.registry.nodes == d.registry.nodes + [n] && n.sock == sock
  {
    RequestRoundTrip(Zeros(8), Zeros(8), 0, 0);
    RegisteredIffFound(d.registry.nodes, sock);
    n := Step(d, Joining(sock)).registry.nodes[|d.registry.nodes|];
  }

  lemma {:induction false} RunAppends(d: Directory, es: seq<Event>, e: Event)
    ensures Run(d, es + [e]) == Step(Run(d, es), e)
    decreases |es|
  {
    if es == [] {
      assert es + [e] == [e] && Run(Step(d, e), []) == Step(d, e);
    } else {
      RunAppends(Step(d, es[0]), es[1..], e);
      assert (es + [e])[1..] == es[1..] + [e];
    }
  }

  /** After `es` the directory runs, and its nodes are on these sockets. */
  predicate JoinedOn(d: Directory, socks: seq<nat>) {
    && d.alive && |d.registry.nodes| == |socks|
    && forall i :: 0 <= i < |socks| ==> d.registry.nodes[i].sock == socks[i]
  }

  lemma SocketsAppend(d: Directory, d': Directory, n: Node, socks: seq<nat>)
    requires JoinedOn(d, socks) && d'.alive && d'.registry.nodes == d.registry.nodes + [n]
    ensures JoinedOn(d', socks + [n.sock])
  {
  }

  lemma JoinStep(d: Directory, socks: seq<nat>, sock: nat)
    requires JoinedOn(d, socks) && sock !in socks
    ensures JoinedOn(Step(d, Joining(sock)), socks + [sock])
  {
    var n := JoinAdmits(d, sock);
    SocketsAppend(d, Step(d, Joining(sock)), n, socks);
  }

  lemma JoinMore(es: seq<Event>, socks: seq<nat>, sock: nat)
    requires JoinedOn(Run(Initial(), es), socks) && sock !in socks
    ensures JoinedOn(Run(Initial(), es + [Joining(sock)]), socks + [sock])
  {
    RunAppends(Initial(), es, Joining(sock));
    JoinStep(Run(Initial(), es), socks, sock);
  }

  /** A run in which nodes join on these sockets, one after the other. */
  function Joinings(socks: seq<nat>): seq<Event> {
    if socks == [] then [] else Joinings(socks[..|socks| - 1]) + [Joining(socks[|socks| - 1])]
  }

  /** Such runs exist, for any number of nodes on different sockets. */
  lemma {:induction false} NodesJoin(socks: seq<nat>)
    requires forall i, j :: 0 <= i < j < |socks| ==> socks[i] != socks[j]
    ensures JoinedOn(Run(Initial(), Joinings(socks)), socks)
    decreases |socks|
  {
    if socks != [] {
      var front, last := socks[..|socks| - 1], socks[|socks| - 1];
      NodesJoin(front);
      JoinMore(Joinings(front), front, last);
      assert front + [last] == socks;
    }
  }
}
