/** Registration all the way: a client's request framed for the directory, the directory's reply, and
    what the client makes of it. */
module RegistrationPath {
  import opened Words
  import opened Serialization
  import opened NetworkPackets
  import opened StreamFraming
  import opened DirectoryModel
  import DirectoryServer

  // ----- Replies on the wire -----

  predicate ValidReply(reply: Reply) {
    reply.Welcome? ==> -0x8000_0000 <= reply.seed <= 0x7fff_ffff
  }

  lemma OneFrame(f: Frame, bytes: seq<Byte>)
    requires FitsLengthByte(f) && bytes == Encode(f)
    ensures Parse(bytes) == ([f], [])
  {
    ParseOne(f, []);
    assert Encode(f) + [] == Encode(f) && Parse([]) == ([], []) && [f] + [] == [f];
  }

  /** Each reply is one frame on the client's stream: a welcome of kind 4 with six payload bytes, a
      refusal of kind 3 or a PONG of kind 5 without payload. Only a refusal ends the client's reader,
      whatever buffer earlier frames have left. */
  lemma ReplyIs(reply: Reply, last: Option<seq<Byte>>) returns (f: Frame)
    requires ValidReply(reply)
    ensures Parse(ReplyBytes(reply)) == ([f], [])
    ensures reply.Welcome? ==>
      && f.kind == 4 && |f.payload| == 6
      && LearnedAddr(f.payload) == reply.addr && LearnedSeed(f.payload) == reply.seed
      && reply.addr == 0x100 * ToOctet(f.payload[0]) + ToOctet(f.payload[1])
      && reply.seed == Signed(0x100_0000 * ToOctet(f.payload[2]) + 0x1_0000 * ToOctet(f.payload[3])
                              + 0x100 * ToOctet(f.payload[4]) + ToOctet(f.payload[5]))
    ensures reply.Fail? ==> f == Frame(3, [])
    ensures reply.Pong? ==> f == Frame(5, [])
    ensures Ends(Act(f, last)) <==> reply.Fail?
  {
    var bytes := ReplyBytes(reply);
    f := Frame(bytes[0], bytes[2..]);
    if reply.Welcome? {
      WelcomeRoundTrip(reply.addr, reply.seed);
      CharOfIs(f.payload[0], f.payload[1]);
      IntOfIs(f.payload[2], f.payload[3], f.payload[4], f.payload[5]);
    }
    assert bytes == Encode(f);
    OneFrame(f, bytes);
  }

  // ----- The client -----

  datatype State = Unregistered | Registered | Rejected

  /** What the client keeps of its registration; address and seed start as zeros. */
  datatype Client = Client(addr: Char16, seed: int, state: State)

  predicate ValidClient(c: Client) {
    -0x8000_0000 <= c.seed <= 0x7fff_ffff
  }

  /** What acting on a frame does to the registration; nothing when it throws. */
  function Learn(c: Client, r: Received): Client {
    if r.kind == REG_REPLY_WELCOME && !Throws(r) then
      Client(LearnedAddr(r.payload.value), LearnedSeed(r.payload.value), Registered)
    else if r.kind == REG_REPLY_FAIL then c.(state := Rejected)
    else if r.kind == REG_REPLY_PONG then c.(state := Registered)
    else c
  }

  /** No other frame teaches the client anything, nor does a welcome on which it throws. */
  lemma LearnsFromRepliesOnly(c: Client, r: Received)
    ensures r.kind != 3 && r.kind != 4 && r.kind != 5 ==> Learn(c, r) == c
    ensures r.kind == 4 && (r.payload.None? || |r.payload.value| < 6) ==> Learn(c, r) == c
  {
  }

  /** The client's registration after all that its reader acted on. */
  function LearnAll(c: Client, log: seq<Received>): Client {
    if log == [] then c else Learn(LearnAll(c, log[..|log| - 1]), log[|log| - 1])
  }

  class RegistryService {
    var myAddr: Char16
    var seed: int
    var state: State

    constructor ()
      ensures Value() == Client(0, 0, Unregistered)
    {
      myAddr, seed, state := 0, 0, Unregistered;
    }

    function Value(): Client
      reads this
    {
      Client(myAddr, seed, state)
    }

    method SetMyAddr(b: Char16, s: int)
      modifies this
      ensures Value() == Client(b, s, Registered)
    {
      myAddr, seed, state := b, s, Registered;
    }

    /** The part of the reader's loop that concerns the registration. */
    method Handle(r: Received)
      modifies this
      ensures Value() == Learn(old(Value()), r)
    {
      if r.kind == REG_REPLY_WELCOME {
        if r.payload.None? || |r.payload.value| < 6 {
          return;
        }
        var p := r.payload.value;
        SetMyAddr(CharOf(p[0], p[1]), IntOf(p[2], p[3], p[4], p[5]));
      }
      if r.kind == REG_REPLY_FAIL {
        state := Rejected;
      }
      if r.kind == REG_REPLY_PONG {
        state := Registered;
      }
    }

    method HandleAll(log: seq<Received>)
      modifies this
      ensures Value() == LearnAll(old(Value()), log)
    {
      for i := 0 to |log|
        invariant Value() == LearnAll(old(Value()), log[..i])
      {
        assert log[..i + 1][..i] == log[..i];
        Handle(log[i]);
      }
      assert log[..|log|] == log;
    }

    /** `register`: the request for the current position. */
    method Register(lat: seq<Byte>, lon: seq<Byte>) returns (msg: NetworkMsg)
      requires |lat| == 8 && |lon| == 8 && ValidClient(Value())
      ensures msg == NetworkMsg(REGISTRY_REQ, 23, RequestBytes(lat, lon, myAddr, seed))
    {
      msg := NetworkMsg(REGISTRY_REQ, 1 + 8 + 8 + 2 + 4, [0x01] + lat + lon + PutChar(myAddr) + PutInt(seed));
    }
  }

  // ----- One exchange with the directory -----

  /** The frame that a request arrives in, from any writer. */
  lemma RequestIsFrame(p: seq<Byte>, hostsRootAgent: bool, app: Location)
    requires ValidLocation(app) && |p| == 23
    ensures Parse(Framed(NetworkMsg(REGISTRY_REQ, 23, p), hostsRootAgent, app)) == ([Frame(2, p)], [])
  {
    var msg := NetworkMsg(REGISTRY_REQ, 23, p);
    FramedIsOneFrame(msg, hostsRootAgent, app);
    assert p + [] == p;
  }

  /** The bytes of the request that a client sends. */
  function Asked(c: Client, lat: seq<Byte>, lon: seq<Byte>): (p: seq<Byte>)
    requires |lat| == 8 && |lon| == 8 && ValidClient(c)
    ensures |p| == 23
  {
    RequestRoundTrip(lat, lon, c.addr, c.seed);
    RequestBytes(lat, lon, c.addr, c.seed)
  }

  /** What the client knows once it has read the directory's reply to its request. */
  function Told(r: Registry, c: Client, sock: nat, lat: seq<Byte>, lon: seq<Byte>, now: int, draw: int): Client
    requires |lat| == 8 && |lon| == 8 && ValidClient(c) && -0x8000_0000 <= draw <= 0x7fff_ffff
  {
    var reply := Register(r, sock, Asked(c, lat, lon), now, draw).1;
    assert ValidReply(reply);
    LearnAll(c, Seen(Parse(ReplyBytes(reply)).0))
  }

  /** The reply's meaning: an address and seed of its own, nothing new but that it is registered, or
      that it is rejected. */
  lemma ReplyTells(c: Client, reply: Reply)
    requires ValidReply(reply)
    ensures LearnAll(c, Seen(Parse(ReplyBytes(reply)).0)) ==
      match reply
      case Welcome(addr, seed) => Client(addr, seed, Registered)
      case Pong => Client(c.addr, c.seed, Registered)
      case Fail => Client(c.addr, c.seed, Rejected)
  {
    var f := ReplyIs(reply, None);
    assert [f][..0] == [] && Seen([f]) == [Act(f, None)];
    assert [Act(f, None)][..0] == [];
    assert LearnAll(c, [Act(f, None)]) == Learn(c, Act(f, None));
  }

  /** The same through the components, for any sizes of reads and writes: the client's writer, the
      directory's reader and request handler, and the client's reader. */
  method Exchange(service: RegistryService, handler: DirectoryServer.RequestHandler, lat: seq<Byte>, lon: seq<Byte>,
                  hostsRootAgent: bool, app: Location, drain: seq<nat>, up: seq<nat>, now: int, draw: int,
                  down: seq<nat>)
    requires |lat| == 8 && |lon| == 8 && ValidLocation(app) && ValidClient(service.Value())
    requires -0x8000_0000 <= draw <= 0x7fff_ffff
    requires Sum(drain) >= 25 && Arrivals(up) >= 25 && Arrivals(down) >= 8
    modifies service, handler, handler.registry
    ensures var r, c := old(handler.registry.State()), old(service.Value());
      && handler.registry.State() == Register(r, handler.sock, Asked(c, lat, lon), now, draw).0
      && service.Value() == Told(r, c, handler.sock, lat, lon, now, draw)
  {
    ghost var c := service.Value();
    var msg := service.Register(lat, lon);
    var request := Deliver(msg, Asked(c, lat, lon), hostsRootAgent, app, drain, up);
    var reply := handler.ProcessRegistration(request.payload, now, draw);
    var log := ReadReply(handler.outMsg, reply.value, down);
    service.HandleAll(log);
  }

  /** The client's writer and the directory's reader. */
  method Deliver(msg: NetworkMsg, ghost p: seq<Byte>, hostsRootAgent: bool, app: Location, drain: seq<nat>,
                 up: seq<nat>) returns (request: Frame)
    requires ValidLocation(app) && msg == NetworkMsg(REGISTRY_REQ, 23, p) && |p| == 23
    requires Sum(drain) >= 25 && Arrivals(up) >= 25
    ensures request == Frame(2, p)
  {
    RequestIsFrame(p, hostsRootAgent, app);
    var frame := BuildFrame(msg, hostsRootAgent, app);
    var wire, done := WriteAll(frame.value, drain);
    var s := new Stream(wire, up);
    var requests := ServeRequests(s);
    assert s.incoming == [] && s.consumed == wire;
    request := requests[0];
  }

  /** The client's reader on the directory's reply. */
  method ReadReply(bytes: seq<Byte>, ghost reply: Reply, down: seq<nat>) returns (log: seq<Received>)
    requires ValidReply(reply) && bytes == ReplyBytes(reply) && Arrivals(down) >= 8
    ensures log == Seen(Parse(bytes).0)
  {
    ghost var f := ReplyIs(reply, None);
    OneFrame(f, Encode(f));
    WholeFramesEncode(bytes);
    var s := new Stream(bytes, down);
    var task := new ReadTask();
    var ended := task.Run(s);
    log := task.log;
    if ended {
      EndedHasAll(s.consumed, s.incoming, f);
    }
    assert s.incoming == [] && s.consumed == bytes;
  }

  /** A reader that has read a whole frame of a stream that is one frame has read all of it. */
  lemma EndedHasAll(got: seq<Byte>, left: seq<Byte>, f: Frame)
    requires Parse(got + left) == ([f], []) && Parse(got).1 == [] && Parse(got).0 != []
    ensures left == []
  {
    ParseContinues(got, left);
    assert [] + left == left;
    WholeFramesEncode(left);
    assert EncodeAll([]) == [];
  }

  /** The arrival of the client's request at the directory. */
  function Request(c: Client, sock: nat, lat: seq<Byte>, lon: seq<Byte>, now: int, draw: int): Event
    requires |lat| == 8 && |lon| == 8 && ValidClient(c)
  {
    Arrival(sock, 2, Asked(c, lat, lon), now, draw)
  }

  /** A new client on a new socket learns the address and seed of the node that is registered for it. */
  lemma FirstConnectionTells(d: Directory, sock: nat, lat: seq<Byte>, lon: seq<Byte>, now: int, draw: int)
    requires d.alive && !IsRegistered(d.registry.nodes, sock) && |lat| == 8 && |lon| == 8
    requires -0x8000_0000 <= draw <= 0x7fff_ffff
    ensures var c := Client(0, 0, Unregistered);
      var d' := Step(d, Request(c, sock, lat, lon, now, draw));
      var addr := d.registry.counter % 0x1_0000;
      && Told(d.registry, c, sock, lat, lon, now, draw) == Client(addr, draw, Registered)
      && d'.alive && d'.registry.nodes == d.registry.nodes + [Node(sock, addr, draw, now, lat, lon)]
  {
    var c := Client(0, 0, Unregistered);
    FirstConnectionIs(d.registry, sock, lat, lon, now, draw);
    ReplyTells(c, Register(d.registry, sock, Asked(c, lat, lon), now, draw).1);
  }

  /** A client with an address and seed, on a new socket: it ends up registered exactly while the first
      node of that address and seed was seen in the last 60 s, else rejected; it keeps what it knows. */
  lemma ReconnectionTells(d: Directory, c: Client, sock: nat, lat: seq<Byte>, lon: seq<Byte>, now: int, draw: int)
    requires !IsRegistered(d.registry.nodes, sock) && |lat| == 8 && |lon| == 8 && ValidClient(c)
    requires !(c.addr == 0 && c.seed == 0) && -0x8000_0000 <= draw <= 0x7fff_ffff
    ensures var ns := d.registry.nodes;
      var k := FindAddrSeed(ns, c.addr, c.seed, 0);
      Told(d.registry, c, sock, lat, lon, now, draw)
        == Client(c.addr, c.seed, if k < |ns| && now - ns[k].lastSeen <= 60000 then Registered else Rejected)
  {
    ReconnectionIff(d.registry, sock, lat, lon, c.addr, c.seed, now, draw);
    ReplyTells(c, Register(d.registry, sock, Asked(c, lat, lon), now, draw).1);
  }

  // ----- A client's life -----

  /** While addresses are distinct, the first node of an address and seed is the one of that address. */
  lemma FoundByAddress(ns: seq<Node>, k: nat)
    requires AddressesDistinct(ns) && k < |ns|
    ensures FindAddrSeed(ns, ns[k].addr, ns[k].seed, 0) == k
  {
  }

  /** The node at `k` is the client's: on this socket, and with the address and seed it knows. */
  predicate IsOf(ns: seq<Node>, k: nat, sock: nat, c: Client) {
    k < |ns| && ns[k].sock == sock && ns[k].addr == c.addr && ns[k].seed == c.seed
  }

  lemma {:induction false} NodeStays(d: Directory, k: nat, sock: nat, c: Client, es: seq<Event>)
    requires Inv(d) && IsOf(d.registry.nodes, k, sock, c)
    ensures Inv(Run(d, es)) && IsOf(Run(d, es).registry.nodes, k, sock, c)
  {
    RunKeepsInv(d, es);
  }

  /** What a client is told on a new socket, in a registry of distinct addresses. */
  lemma OwnerTold(d: Directory, k: nat, was: nat, c: Client, sock: nat, lat: seq<Byte>, lon: seq<Byte>,
                  now: int, draw: int)
    requires Inv(d) && IsOf(d.registry.nodes, k, was, c) && |d.registry.nodes| < 0x1_0000
    requires !IsRegistered(d.registry.nodes, sock) && |lat| == 8 && |lon| == 8
    requires ValidClient(c) && -0x8000_0000 <= draw <= 0x7fff_ffff
    ensures forall i :: 0 <= i < |d.registry.nodes| && i != k ==> d.registry.nodes[i].addr != c.addr
    ensures Told(d.registry, c, sock, lat, lon, now, draw)
      == Client(c.addr, c.seed, if now - d.registry.nodes[k].lastSeen <= 60000 then Registered else Rejected)
  {
    var ns := d.registry.nodes;
    AddressesDistinctIff(d.registry);
    FoundByAddress(ns, k);
    assert ns[k].addr == (k + 1) % 0x1_0000;
    ReconnectionTells(d, c, sock, lat, lon, now, draw);
  }

  /** What a new client learns is its node's, in every registry reached. */
  lemma JoinedIsOf(d: Directory, sock: nat, lat: seq<Byte>, lon: seq<Byte>, now: int, draw: int)
    requires Inv(d) && d.alive && !IsRegistered(d.registry.nodes, sock) && |lat| == 8 && |lon| == 8
    requires -0x8000_0000 <= draw <= 0x7fff_ffff
    ensures var c0 := Client(0, 0, Unregistered);
      var c := Told(d.registry, c0, sock, lat, lon, now, draw);
      var d' := Step(d, Request(c0, sock, lat, lon, now, draw));
      && c.state == Registered && c.seed == draw && Inv(d') && IsOf(d'.registry.nodes, |d.registry.nodes|, sock, c)
  {
    FirstConnectionTells(d, sock, lat, lon, now, draw);
    StepKeepsInv(d, Request(Client(0, 0, Unregistered), sock, lat, lon, now, draw));
  }

  /** After any run of the directory a new client joins on a new socket; then any frames arrive, from it
      and from others. Its node stays where it was registered, with the address and seed that the client
      learned. While fewer than 65536 nodes have registered that address is its own alone, and on another
      new socket the client is registered again exactly when its node was seen in the last 60 s, and
      rejected otherwise. */
  lemma ComesBackIff(es: seq<Event>, sock: nat, lat: seq<Byte>, lon: seq<Byte>, now: int, draw: int,
                     later: seq<Event>, sock': nat, at: int, draw': int)
    requires |lat| == 8 && |lon| == 8
    requires -0x8000_0000 <= draw <= 0x7fff_ffff && -0x8000_0000 <= draw' <= 0x7fff_ffff
    requires Run(Initial(), es).alive && !IsRegistered(Run(Initial(), es).registry.nodes, sock)
    ensures var d := Run(Initial(), es);
      var c0 := Client(0, 0, Unregistered);
      var c := Told(d.registry, c0, sock, lat, lon, now, draw);
      var d' := Run(Step(d, Request(c0, sock, lat, lon, now, draw)), later);
      var ns, k := d'.registry.nodes, |d.registry.nodes|;
      && c.state == Registered && c.seed == draw && IsOf(ns, k, sock, c)
      && (|ns| < 0x1_0000 && !IsRegistered(ns, sock') ==>
           && (forall i :: 0 <= i < |ns| && i != k ==> ns[i].addr != c.addr)
           && Told(d'.registry, c, sock', lat, lon, at, draw')
              == Client(c.addr, c.seed, if at - ns[k].lastSeen <= 60000 then Registered else Rejected))
  {
    var d := Run(Initial(), es);
    var c0 := Client(0, 0, Unregistered);
    var c := Told(d.registry, c0, sock, lat, lon, now, draw);
    var d1 := Step(d, Request(c0, sock, lat, lon, now, draw));
    InitialInv();
    RunKeepsInv(Initial(), es);
    JoinedIsOf(d, sock, lat, lon, now, draw);
    NodeStays(d1, |d.registry.nodes|, sock, c, later);
    var d' := Run(d1, later);
    if |d'.registry.nodes| < 0x1_0000 && !IsRegistered(d'.registry.nodes, sock') {
      OwnerTold(d', |d.registry.nodes|, sock, c, sock', lat, lon, at, draw');
    }
  }
}
