/** The directory: registration of nodes by socket, address and seed, and forwarding of frames. */
module DirectoryModel {
  import opened Words
  import opened Serialization
  import opened NetworkPackets

  const TIME_THRESHOLD_MS: int := 60000
  const LAT_OFFSET: nat := 1
  const LON_OFFSET: nat := 9
  const ADDR_OFFSET: nat := 17
  const REQUEST_LEN: nat := 23

  /** A registered node; its position is two opaque `double`s. */
  datatype Node = Node(sock: nat, addr: Char16, seed: int, lastSeen: int, lat: seq<Byte>, lon: seq<Byte>)

  /** `counter` is a Java `int`, kept as its 32 bits. */
  datatype Registry = Registry(nodes: seq<Node>, counter: Word)

  datatype Reply = Welcome(addr: Char16, seed: int) | Fail | Pong

  // ----- Lookups: the first match of a scan -----

  function FindSock(ns: seq<Node>, sock: nat, from: nat): (k: nat)
    requires from <= |ns|
    ensures from <= k <= |ns|
    ensures forall i :: from <= i < k ==> ns[i].sock != sock
    ensures k < |ns| ==> ns[k].sock == sock
    decreases |ns| - from
  {
    if from == |ns| || ns[from].sock == sock then from else FindSock(ns, sock, from + 1)
  }

  function FindAddr(ns: seq<Node>, addr: Char16, from: nat): (k: nat)
    requires from <= |ns|
    ensures from <= k <= |ns|
    ensures forall i :: from <= i < k ==> ns[i].addr != addr
    ensures k < |ns| ==> ns[k].addr == addr
    decreases |ns| - from
  {
    if from == |ns| || ns[from].addr == addr then from else FindAddr(ns, addr, from + 1)
  }

  function FindAddrSeed(ns: seq<Node>, addr: Char16, seed: int, from: nat): (k: nat)
    requires from <= |ns|
    ensures from <= k <= |ns|
    ensures forall i :: from <= i < k ==> !(ns[i].addr == addr && ns[i].seed == seed)
    ensures k < |ns| ==> ns[k].addr == addr && ns[k].seed == seed
    decreases |ns| - from
  {
    if from == |ns| || (ns[from].addr == addr && ns[from].seed == seed) then from
    else FindAddrSeed(ns, addr, seed, from + 1)
  }

  // ----- Registration requests -----

  function RequestLat(p: seq<Byte>): seq<Byte>
    requires |p| >= ADDR_OFFSET
  {
    p[LAT_OFFSET..LAT_OFFSET + 8]
  }

  function RequestLon(p: seq<Byte>): seq<Byte>
    requires |p| >= ADDR_OFFSET
  {
    p[LON_OFFSET..LON_OFFSET + 8]
  }

  function RequestAddr(p: seq<Byte>): Char16
    requires |p| >= REQUEST_LEN
  {
    CharOf(p[17], p[18])
  }

  function RequestSeed(p: seq<Byte>): int
    requires |p| >= REQUEST_LEN
  {
    IntOf(p[19], p[20], p[21], p[22])
  }

  function Refresh(r: Registry, k: nat, p: seq<Byte>, now: int): Registry
    requires k < |r.nodes| && |p| >= ADDR_OFFSET
  {
    r.(nodes := r.nodes[k := r.nodes[k].(lat := RequestLat(p), lon := RequestLon(p), lastSeen := now)])
  }

  function NewNode(r: Registry, sock: nat, p: seq<Byte>, now: int, seed: int): Node
    requires |p| >= ADDR_OFFSET
  {
    Node(sock, r.counter % 0x1_0000, seed, now, RequestLat(p), RequestLon(p))
  }

  function Admit(r: Registry, n: Node): Registry {
    Registry(r.nodes + [n], Wrap(r.counter + 1))
  }

  /** The payload is long enough for what the request makes the directory read. */
  predicate WellFormed(r: Registry, sock: nat, p: seq<Byte>) {
    |p| >= if FindSock(r.nodes, sock, 0) < |r.nodes| then ADDR_OFFSET else REQUEST_LEN
  }

  /** One registration request; `draw` is the random seed a new node would draw. An expired node
      is refused but stays: the removal is asked of the wrong kind of object. */
  function Register(r: Registry, sock: nat, p: seq<Byte>, now: int, draw: int): (Registry, Reply)
    requires WellFormed(r, sock, p)
  {
    var n := FindSock(r.nodes, sock, 0);
    if n < |r.nodes| then (Refresh(r, n, p, now), Pong)
    else
      var addr, seed := RequestAddr(p), RequestSeed(p);
      if seed == 0 && addr == 0 then
        var node := NewNode(r, sock, p, now, draw);
        (Admit(r, node), Welcome(node.addr, node.seed))
      else
        var k := FindAddrSeed(r.nodes, addr, seed, 0);
        if k == |r.nodes| || now - r.nodes[k].lastSeen > TIME_THRESHOLD_MS then (r, Fail)
        else (Refresh(r, k, p, now), Pong)
  }

  /** A datagram only refreshes its sender's time. */
  function Touch(r: Registry, sock: nat, now: int): Registry {
    var n := FindSock(r.nodes, sock, 0);
    if n < |r.nodes| then r.(nodes := r.nodes[n := r.nodes[n].(lastSeen := now)]) else r
  }

  // ----- Runs -----

  datatype Answer = Answer(sock: nat, reply: Reply)

  /** The directory's thread is `alive` until a request throws. */
  datatype Directory = Directory(registry: Registry, answers: seq<Answer>, alive: bool)

  /** A frame of any kind from a socket; `draw` is the seed a new node would get. */
  datatype Event = Arrival(sock: nat, kind: Byte, payload: seq<Byte>, now: int, draw: int)

  /** The whole datagram, header included, reaches back to where its trailer is read. */
  predicate HasTrailer(payload: seq<Byte>) {
    HEADER_LEN + |payload| >= TRAILER_LEN
  }

  function Answered(d: Directory, sock: nat, p: seq<Byte>, now: int, draw: int): Directory
    requires WellFormed(d.registry, sock, p)
  {
    var (r, reply) := Register(d.registry, sock, p, now, draw);
    d.(registry := r, answers := d.answers + [Answer(sock, reply)])
  }

  /** A registration or datagram too short for what is read from it throws. A frame of another kind
      is not processed; it only repeats the handler's last write. */
  function Step(d: Directory, e: Event): Directory {
    if !d.alive then d
    else if e.kind == REGISTRY_REQ then
      if WellFormed(d.registry, e.sock, e.payload) then Answered(d, e.sock, e.payload, e.now, e.draw)
      else d.(alive := false)
    else if e.kind == POBICOS_MSG then
      if HasTrailer(e.payload) then d.(registry := Touch(d.registry, e.sock, e.now)) else d.(alive := false)
    else d
  }

  function Run(d: Directory, es: seq<Event>): Directory
    decreases |es|
  {
    if es == [] then d else Run(Step(d, es[0]), es[1..])
  }

  function Initial(): Directory {
    Directory(Registry([], 1), [], true)
  }

  // ----- What every run keeps -----

  predicate SocketsDistinct(ns: seq<Node>) {
    forall i, j :: 0 <= i < j < |ns| ==> ns[i].sock != ns[j].sock
  }

  /** The k-th node registered, counting from 1, has address k mod 2^16. */
  predicate AddressesCount(r: Registry) {
    && r.counter == Wrap(|r.nodes| + 1)
    && forall i :: 0 <= i < |r.nodes| ==> r.nodes[i].addr == (i + 1) % 0x1_0000
  }

  predicate IsRegistered(ns: seq<Node>, sock: nat) {
    exists i :: 0 <= i < |ns| && ns[i].sock == sock
  }

  /** A socket is welcomed only to become registered, and is answered by Pong ever after. */
  predicate WelcomedOnce(d: Directory) {
    && (forall i :: 0 <= i < |d.answers| && d.answers[i].reply.Welcome? ==>
         IsRegistered(d.registry.nodes, d.answers[i].sock))
    && (forall i, j :: 0 <= i < j < |d.answers| && d.answers[j].sock == d.answers[i].sock ==>
         (d.answers[i].reply.Welcome? ==> d.answers[j].reply == Pong))
  }

  predicate Inv(d: Directory) {
    SocketsDistinct(d.registry.nodes) && AddressesCount(d.registry) && WelcomedOnce(d)
  }

  /** Nodes are never removed, moved, readdressed or rebound to another socket. */
  predicate Extends(ns: seq<Node>, ns': seq<Node>) {
    && |ns| <= |ns'|
    && forall i :: 0 <= i < |ns| ==>
         ns'[i].sock == ns[i].sock && ns'[i].addr == ns[i].addr && ns'[i].seed == ns[i].seed
  }

  lemma RegisteredIffFound(ns: seq<Node>, sock: nat)
    ensures IsRegistered(ns, sock) <==> FindSock(ns, sock, 0) < |ns|
  {
  }

  lemma ExtendsKeepsRegistered(ns: seq<Node>, ns': seq<Node>, sock: nat)
    requires Extends(ns, ns') && IsRegistered(ns, sock)
    ensures IsRegistered(ns', sock)
  {
    var i :| 0 <= i < |ns| && ns[i].sock == sock;
    assert ns'[i].sock == sock;
  }

  lemma AnswerKeepsWelcomedOnce(d: Directory, d': Directory, a: Answer)
    requires WelcomedOnce(d) && d'.answers == d.answers + [a]
    requires Extends(d.registry.nodes, d'.registry.nodes)
    requires IsRegistered(d.registry.nodes, a.sock) ==> a.reply == Pong
    requires a.reply.Welcome? ==> IsRegistered(d'.registry.nodes, a.sock)
    ensures WelcomedOnce(d')
  {
    forall i | 0 <= i < |d'.answers| && d'.answers[i].reply.Welcome?
      ensures IsRegistered(d'.registry.nodes, d'.answers[i].sock)
    {
      if i < |d.answers| { ExtendsKeepsRegistered(d.registry.nodes, d'.registry.nodes, d.answers[i].sock); }
    }
  }

  predicate Grows(r: Registry, r': Registry) {
    Extends(r.nodes, r'.nodes) && SocketsDistinct(r'.nodes) && AddressesCount(r')
  }

  lemma AdmitGrows(r: Registry, n: Node)
    requires SocketsDistinct(r.nodes) && AddressesCount(r)
    requires !IsRegistered(r.nodes, n.sock) && n.addr == r.counter % 0x1_0000
    ensures Grows(r, Admit(r, n)) && IsRegistered(Admit(r, n).nodes, n.sock)
    ensures n.addr == (|r.nodes| + 1) % 0x1_0000
  {
    CounterCounts(|r.nodes| + 1);
    assert Admit(r, n).nodes[|r.nodes|] == n;
  }

  lemma LowBitsShift(x: int, k: int)
    ensures (x + 0x1_0000 * k) % 0x1_0000 == x % 0x1_0000
  {
  }

  /** The overflowing `int` counter still counts addresses modulo 2^16. */
  lemma CounterCounts(n: nat)
    ensures Wrap(n) % 0x1_0000 == n % 0x1_0000 && Wrap(Wrap(n) + 1) == Wrap(n + 1)
  {
    LowBitsShift(Wrap(n), 0x1_0000 * (n / 0x1_0000_0000));
    WrapSum(n, 1);
  }

  lemma RefreshGrows(r: Registry, k: nat, p: seq<Byte>, now: int)
    requires SocketsDistinct(r.nodes) && AddressesCount(r) && k < |r.nodes| && |p| >= ADDR_OFFSET
    ensures Grows(r, Refresh(r, k, p, now))
  {
  }

  /** A request refreshes the node at `k`, or comes from a new socket and is refused or admitted. */
  lemma RegisterShape(r: Registry, sock: nat, p: seq<Byte>, now: int, draw: int) returns (k: nat)
    requires WellFormed(r, sock, p)
    ensures k <= |r.nodes| && |p| >= ADDR_OFFSET
    ensures k < |r.nodes| ==> Register(r, sock, p, now, draw) == (Refresh(r, k, p, now), Pong)
    ensures k == |r.nodes| ==>
      var n := NewNode(r, sock, p, now, draw);
      && !IsRegistered(r.nodes, sock)
      && (Register(r, sock, p, now, draw) == (r, Fail)
          || Register(r, sock, p, now, draw) == (Admit(r, n), Welcome(n.addr, n.seed)))
    ensures IsRegistered(r.nodes, sock) ==> k < |r.nodes|
  {
    RegisteredIffFound(r.nodes, sock);
    k := FindSock(r.nodes, sock, 0);
    if k == |r.nodes| && !(RequestSeed(p) == 0 && RequestAddr(p) == 0) {
      k := FindAddrSeed(r.nodes, RequestAddr(p), RequestSeed(p), 0);
      if k < |r.nodes| && now - r.nodes[k].lastSeen > TIME_THRESHOLD_MS { k := |r.nodes|; }
    }
  }

  /** A registered socket is answered by Pong; a welcome admits its socket as the next node. */
  lemma RegisterGrows(r: Registry, sock: nat, p: seq<Byte>, now: int, draw: int)
    requires WellFormed(r, sock, p) && SocketsDistinct(r.nodes) && AddressesCount(r)
    ensures Grows(r, Register(r, sock, p, now, draw).0)
    ensures IsRegistered(r.nodes, sock) ==> Register(r, sock, p, now, draw).1 == Pong
    ensures Register(r, sock, p, now, draw).1.Welcome? ==>
      && IsRegistered(Register(r, sock, p, now, draw).0.nodes, sock)
      && |Register(r, sock, p, now, draw).0.nodes| == |r.nodes| + 1
      && Register(r, sock, p, now, draw).1.addr == (|r.nodes| + 1) % 0x1_0000
  {
    var k := RegisterShape(r, sock, p, now, draw);
    if k < |r.nodes| {
      RefreshGrows(r, k, p, now);
    } else {
      AdmitGrows(r, NewNode(r, sock, p, now, draw));
    }
  }

  lemma StepKeepsInv(d: Directory, e: Event)
    requires Inv(d)
    ensures Inv(Step(d, e)) && Extends(d.registry.nodes, Step(d, e).registry.nodes)
  {
    if Step(d, e).registry != d.registry || Step(d, e).answers != d.answers {
      if e.kind == REGISTRY_REQ {
        RegisterGrows(d.registry, e.sock, e.payload, e.now, e.draw);
        AnswerKeepsWelcomedOnce(d, Step(d, e),
                                Answer(e.sock, Register(d.registry, e.sock, e.payload, e.now, e.draw).1));
      } else {
        TouchKeepsWelcomedOnce(d, Step(d, e));
      }
    }
  }

  lemma TouchKeepsWelcomedOnce(d: Directory, d': Directory)
    requires WelcomedOnce(d) && d'.answers == d.answers && Extends(d.registry.nodes, d'.registry.nodes)
    ensures WelcomedOnce(d')
  {
    forall i | 0 <= i < |d.answers| && d.answers[i].reply.Welcome?
      ensures IsRegistered(d'.registry.nodes, d.answers[i].sock)
    {
      ExtendsKeepsRegistered(d.registry.nodes, d'.registry.nodes, d.answers[i].sock);
    }
  }

  /** Every run of frames of any kind on any sockets, malformed ones included: no two nodes share
      a socket, the k-th node has address k mod 2^16, no node is ever removed or rebound, and a socket
      is welcomed at most once and answered by Pong ever after. */
  lemma {:induction false} RunKeepsInv(d: Directory, es: seq<Event>)
    requires Inv(d)
    ensures Inv(Run(d, es)) && Extends(d.registry.nodes, Run(d, es).registry.nodes)
    decreases |es|
  {
    if es != [] {
      StepKeepsInv(d, es[0]);
      RunKeepsInv(Step(d, es[0]), es[1..]);
    }
  }

  lemma InitialInv()
    ensures Inv(Initial())
  {
  }

  /** From start-up, whatever frames arrive on whatever sockets: no two nodes share a socket, the k-th
      node has address k mod 2^16, addresses repeat exactly beyond 65536 nodes, and a socket is
      welcomed at most once and answered by Pong ever after. */
  lemma DirectoryFromStart(es: seq<Event>)
    ensures var d := Run(Initial(), es);
      var ns := d.registry.nodes;
      && SocketsDistinct(ns) && WelcomedOnce(d)
      && (forall i :: 0 <= i < |ns| ==> ns[i].addr == (i + 1) % 0x1_0000)
      && (AddressesDistinct(ns) <==> |ns| <= 0x1_0000)
      && AddressesCount(d.registry)
  {
    InitialInv();
    RunKeepsInv(Initial(), es);
    AddressesDistinctIff(Run(Initial(), es).registry);
  }

  predicate AddressesDistinct(ns: seq<Node>) {
    forall i, j :: 0 <= i < j < |ns| ==> ns[i].addr != ns[j].addr
  }

  /** The first node of an address: the one registered at that number, or for address 0 at 65536. */
  lemma FirstOfAddress(r: Registry, addr: Char16)
    requires AddressesCount(r)
    ensures var k := if addr == 0 then 0xffff else addr - 1;
      FindAddr(r.nodes, addr, 0) == if k < |r.nodes| then k else |r.nodes|
  {
    var k := if addr == 0 then 0xffff else addr - 1;
    if k < |r.nodes| { assert r.nodes[k].addr == addr; }
  }

  /** Addresses are pairwise distinct exactly through 65536 registrations. */
  lemma AddressesDistinctIff(r: Registry)
    requires AddressesCount(r)
    ensures AddressesDistinct(r.nodes) <==> |r.nodes| <= 0x1_0000
  {
    if |r.nodes| > 0x1_0000 {
      assert r.nodes[0].addr == 1 && r.nodes[0x1_0000].addr == 1;
    }
  }

  // ----- What an arrival does -----

  /** Frames of kind 2 are registrations and of kind 1 datagrams. One that is too short for what is read
      from it ends the directory's thread: a registration of fewer than 17 bytes, or than 23 on a socket
      that is not registered, and a datagram whose frame is shorter than 18. Other kinds, and frames
      after that end, change nothing. */
  lemma ArrivalIs(d: Directory, sock: nat, kind: Byte, p: seq<Byte>, now: int, draw: int)
    ensures var d' := Step(d, Arrival(sock, kind, p, now, draw));
      if !d.alive || (kind != 1 && kind != 2) then d' == d
      else if kind == 1 then
        if |p| < 16 then d' == Directory(d.registry, d.answers, false)
        else d' == Directory(Touch(d.registry, sock, now), d.answers, true)
      else if |p| < 17 || (|p| < 23 && !IsRegistered(d.registry.nodes, sock)) then
        d' == Directory(d.registry, d.answers, false)
      else
        && WellFormed(d.registry, sock, p)
        && d' == Directory(Register(d.registry, sock, p, now, draw).0,
                           d.answers + [Answer(sock, Register(d.registry, sock, p, now, draw).1)], true)
  {
    RegisteredIffFound(d.registry.nodes, sock);
  }

  // ----- Replies and requests on the wire -----

  function ReplyBytes(reply: Reply): seq<Byte>
    requires reply.Welcome? ==> -0x8000_0000 <= reply.seed <= 0x7fff_ffff
  {
    match reply
    case Welcome(addr, seed) => [REG_REPLY_WELCOME, 0x06] + PutChar(addr) + PutInt(seed)
    case Fail => [REG_REPLY_FAIL, 0x00]
    case Pong => [REG_REPLY_PONG, 0x00]
  }

  /** The payload of the client's registration updates. */
  function RequestBytes(lat: seq<Byte>, lon: seq<Byte>, addr: Char16, seed: int): seq<Byte>
    requires |lat| == 8 && |lon| == 8 && -0x8000_0000 <= seed <= 0x7fff_ffff
  {
    [0x01] + lat + lon + PutChar(addr) + PutInt(seed)
  }

  /** What the client learns from a welcome's payload. */
  function LearnedAddr(payload: seq<Byte>): Char16
    requires |payload| >= 6
  {
    CharOf(payload[0], payload[1])
  }

  function LearnedSeed(payload: seq<Byte>): int
    requires |payload| >= 6
  {
    IntOf(payload[2], payload[3], payload[4], payload[5])
  }

  /** The client learns exactly the address and seed it was given. */
  lemma WelcomeRoundTrip(addr: Char16, seed: int)
    requires -0x8000_0000 <= seed <= 0x7fff_ffff
    ensures var payload := ReplyBytes(Welcome(addr, seed))[2..];
      |payload| == 6 && LearnedAddr(payload) == addr && LearnedSeed(payload) == seed
  {
    CharRoundTrip(addr);
    IntRoundTrip(seed, PutInt(seed));
    var payload := ReplyBytes(Welcome(addr, seed))[2..];
    assert payload[0] == HighByte(addr) && payload[1] == LowByte(addr);
    assert forall i :: 0 <= i < 4 ==> payload[2 + i] == PutInt(seed)[i];
  }

  /** The request byte by byte: the class of device, two coordinates, the address and the seed, most
      significant bytes first. */
  lemma RequestIs(lat: seq<Byte>, lon: seq<Byte>, addr: Char16, seed: int)
    requires |lat| == 8 && |lon| == 8 && -0x8000_0000 <= seed <= 0x7fff_ffff
    ensures var p := RequestBytes(lat, lon, addr, seed);
      && |p| == 23 && p[0] == 1 && p[1..9] == lat && p[9..17] == lon
      && 0x100 * ToOctet(p[17]) + ToOctet(p[18]) == addr
      && Signed(0x100_0000 * ToOctet(p[19]) + 0x1_0000 * ToOctet(p[20]) + 0x100 * ToOctet(p[21]) + ToOctet(p[22]))
         == seed
  {
    RequestRoundTrip(lat, lon, addr, seed);
    var p := RequestBytes(lat, lon, addr, seed);
    CharOfIs(p[17], p[18]);
    IntOfIs(p[19], p[20], p[21], p[22]);
  }

  /** The directory reads from a request what the client wrote into it. */
  lemma RequestRoundTrip(lat: seq<Byte>, lon: seq<Byte>, addr: Char16, seed: int)
    requires |lat| == 8 && |lon| == 8 && -0x8000_0000 <= seed <= 0x7fff_ffff
    ensures var p := RequestBytes(lat, lon, addr, seed);
      && |p| == REQUEST_LEN && RequestLat(p) == lat && RequestLon(p) == lon
      && RequestAddr(p) == addr && RequestSeed(p) == seed
  {
    CharRoundTrip(addr);
    IntRoundTrip(seed, PutInt(seed));
    var p := RequestBytes(lat, lon, addr, seed);
    assert p[17] == HighByte(addr) && p[18] == LowByte(addr);
    assert forall i :: 0 <= i < 4 ==> p[19 + i] == PutInt(seed)[i];
  }

  // ----- What a request or datagram does to the registry -----

  /** An update: a request of 17 bytes or more on the socket of the node at `k` gives that node the
      request's position and time, is answered by PONG, and changes nothing else. */
  lemma UpdateIs(r: Registry, k: nat, p: seq<Byte>, now: int, draw: int)
    requires SocketsDistinct(r.nodes) && k < |r.nodes| && |p| >= 17
    ensures var n := r.nodes[k];
      && WellFormed(r, n.sock, p)
      && Register(r, n.sock, p, now, draw)
         == (Registry(r.nodes[k := Node(n.sock, n.addr, n.seed, now, p[1..9], p[9..17])], r.counter), Pong)
  {
    SocketIsFound(r.nodes, k);
  }

  lemma SocketIsFound(ns: seq<Node>, k: nat)
    requires SocketsDistinct(ns) && k < |ns|
    ensures FindSock(ns, ns[k].sock, 0) == k
  {
  }

  /** A first connection: the next node, with the low 16 bits of the counter for its address, is
      registered last on that socket and welcomed with its address and seed. */
  lemma FirstConnectionIs(r: Registry, sock: nat, lat: seq<Byte>, lon: seq<Byte>, now: int, draw: int)
    requires !IsRegistered(r.nodes, sock) && |lat| == 8 && |lon| == 8
    ensures var p := RequestBytes(lat, lon, 0, 0);
      && WellFormed(r, sock, p)
      && Register(r, sock, p, now, draw)
         == (Registry(r.nodes + [Node(sock, r.counter % 0x1_0000, draw, now, lat, lon)], Wrap(r.counter + 1)),
             Welcome(r.counter % 0x1_0000, draw))
  {
    RequestRoundTrip(lat, lon, 0, 0);
    StrangerIsAdmitted(r, sock, RequestBytes(lat, lon, 0, 0), now, draw);
  }

  lemma StrangerIsNew(r: Registry, sock: nat, p: seq<Byte>, now: int, draw: int)
    requires !IsRegistered(r.nodes, sock) && |p| == REQUEST_LEN && RequestAddr(p) == RequestSeed(p) == 0
    ensures WellFormed(r, sock, p)
    ensures var n := NewNode(r, sock, p, now, draw);
      Register(r, sock, p, now, draw) == (Admit(r, n), Welcome(n.addr, n.seed))
  {
    assert FindSock(r.nodes, sock, 0) == |r.nodes| by { RegisteredIffFound(r.nodes, sock); }
  }

  lemma StrangerIsAdmitted(r: Registry, sock: nat, p: seq<Byte>, now: int, draw: int)
    requires !IsRegistered(r.nodes, sock) && |p| == REQUEST_LEN && RequestAddr(p) == RequestSeed(p) == 0
    ensures WellFormed(r, sock, p)
    ensures Register(r, sock, p, now, draw)
         == (Registry(r.nodes + [Node(sock, r.counter % 0x1_0000, draw, now, RequestLat(p), RequestLon(p))],
                      Wrap(r.counter + 1)),
             Welcome(r.counter % 0x1_0000, draw))
  {
    StrangerIsNew(r, sock, p, now, draw);
  }

  /** A datagram sets the time of its sender's node and changes nothing else. */
  lemma TouchIs(r: Registry, k: nat, now: int)
    requires SocketsDistinct(r.nodes) && k < |r.nodes|
    ensures var n := r.nodes[k];
      Touch(r, n.sock, now) == Registry(r.nodes[k := Node(n.sock, n.addr, n.seed, now, n.lat, n.lon)], r.counter)
  {
    SocketIsFound(r.nodes, k);
  }

  lemma StrangersTouchNothing(r: Registry, sock: nat, now: int)
    requires !IsRegistered(r.nodes, sock)
    ensures Touch(r, sock, now) == r
  {
    RegisteredIffFound(r.nodes, sock);
  }

  /** A welcomed client that reconnects on a new socket with what it learned is recognised exactly
      while the first node of its address and seed was seen in the last 60 s; its node keeps the
      old socket. */
  lemma ReconnectionIff(r: Registry, sock: nat, lat: seq<Byte>, lon: seq<Byte>, addr: Char16, seed: int,
                        now: int, draw: int)
    requires |lat| == 8 && |lon| == 8 && -0x8000_0000 <= seed <= 0x7fff_ffff
    requires !IsRegistered(r.nodes, sock) && !(addr == 0 && seed == 0)
    ensures var payload := ReplyBytes(Welcome(addr, seed))[2..];
      |payload| == 6 && LearnedAddr(payload) == addr && LearnedSeed(payload) == seed
    ensures var p := RequestBytes(lat, lon, addr, seed);
      var k := FindAddrSeed(r.nodes, addr, seed, 0);
      && WellFormed(r, sock, p)
      && var (r', reply) := Register(r, sock, p, now, draw);
         && (reply == Pong <==> k < |r.nodes| && now - r.nodes[k].lastSeen <= 60000)
         && (reply != Pong ==> reply == Fail && r' == r)
         && (reply == Pong ==> r' == r.(nodes := r.nodes[k := r.nodes[k].(lat := lat, lon := lon, lastSeen := now)]))
         && !IsRegistered(r'.nodes, sock)
  {
    WelcomeRoundTrip(addr, seed);
    RequestRoundTrip(lat, lon, addr, seed);
    RegisteredIffFound(r.nodes, sock);
  }

  /** The request is of a client that has the address and seed of the node at `k`, the first of them. */
  predicate IsOfNode(r: Registry, k: nat, p: seq<Byte>) {
    && k < |r.nodes| && |p| >= REQUEST_LEN
    && RequestAddr(p) == r.nodes[k].addr && RequestSeed(p) == r.nodes[k].seed
    && FindAddrSeed(r.nodes, r.nodes[k].addr, r.nodes[k].seed, 0) == k
    && !(RequestAddr(p) == 0 && RequestSeed(p) == 0)
  }

  /** Only a node's time and position differ. */
  predicate SameBut(r: Registry, r': Registry, k: nat, seen: int) {
    && k < |r.nodes| == |r'.nodes| && r'.nodes[k].lastSeen == seen
    && forall i :: 0 <= i < |r.nodes| ==>
         && r'.nodes[i].sock == r.nodes[i].sock && r'.nodes[i].addr == r.nodes[i].addr
         && r'.nodes[i].seed == r.nodes[i].seed
  }

  /** A node seen at `seen` is recognised on a new socket for the next 60 s. */
  lemma SeenIsKnown(r: Registry, r': Registry, k: nat, sock: nat, p: seq<Byte>, seen: int, now: int, draw: int)
    requires IsOfNode(r, k, p) && SameBut(r, r', k, seen)
    requires !IsRegistered(r.nodes, sock) && now <= seen + 60000
    ensures WellFormed(r', sock, p) && Register(r', sock, p, now, draw).1 == Pong
  {
    RegisteredIffFound(r.nodes, sock);
    assert FindSock(r'.nodes, sock, 0) == |r'.nodes|;
    assert FindAddrSeed(r'.nodes, r.nodes[k].addr, r.nodes[k].seed, 0) == k;
  }

  /** A datagram from a registered socket keeps its node known: a client with the node's address and
      seed can reconnect on a new socket for the next 60 s, whenever the node was last seen before. */
  lemma ActivityKeepsNodeKnown(r: Registry, k: nat, sock: nat, p: seq<Byte>, seen: int, now: int, draw: int)
    requires SocketsDistinct(r.nodes) && IsOfNode(r, k, p)
    requires !IsRegistered(r.nodes, sock) && now <= seen + 60000
    ensures var t := Touch(r, r.nodes[k].sock, seen);
      WellFormed(t, sock, p) && Register(t, sock, p, now, draw).1 == Pong
  {
    TouchIs(r, k, seen);
    SeenIsKnown(r, Touch(r, r.nodes[k].sock, seen), k, sock, p, seen, now, draw);
  }

  /** So does a registration update on the node's own socket, as short as it may be. */
  lemma UpdateKeepsNodeKnown(r: Registry, k: nat, update: seq<Byte>, sock: nat, p: seq<Byte>, seen: int, now: int,
                             draw: int)
    requires SocketsDistinct(r.nodes) && IsOfNode(r, k, p) && |update| >= 17
    requires !IsRegistered(r.nodes, sock) && now <= seen + 60000
    ensures WellFormed(r, r.nodes[k].sock, update)
    ensures var r' := Register(r, r.nodes[k].sock, update, seen, draw).0;
      WellFormed(r', sock, p) && Register(r', sock, p, now, draw).1 == Pong
  {
    UpdateIs(r, k, update, seen, draw);
    SeenIsKnown(r, Register(r, r.nodes[k].sock, update, seen, draw).0, k, sock, p, seen, now, draw);
  }
}
