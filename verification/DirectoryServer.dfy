/** The directory as the imperative component: the registry's list and counter, and the handler
    that processes one request and writes its reply or forwards its datagram. */
module DirectoryServer {
  import opened Words
  import opened Serialization
  import opened NetworkPackets
  import opened DirectoryModel
  import opened Forwarding

  class RegistryStore {
    var reg: seq<Node>
    var addr: Word

    constructor ()
      ensures State() == Registry([], 1)
    {
      reg, addr := [], 1;
    }

    function State(): Registry
      reads this
    {
      Registry(reg, addr)
    }

    /** The next address: the low 16 bits of the counter. */
    method GetAddr() returns (c: Char16)
      modifies this`addr
      ensures c == old(addr) % 0x1_0000 && addr == Wrap(old(addr) + 1)
    {
      c := addr % 0x1_0000;
      addr := Wrap(addr + 1);
    }

    method BySocket(sock: nat) returns (k: nat)
      ensures k == FindSock(reg, sock, 0)
    {
      for i := 0 to |reg|
        invariant FindSock(reg, sock, 0) == FindSock(reg, sock, i)
      {
        if reg[i].sock == sock {
          return i;
        }
      }
      return |reg|;
    }

    method ByAddr(a: Char16) returns (k: nat)
      ensures k == FindAddr(reg, a, 0)
    {
      for i := 0 to |reg|
        invariant FindAddr(reg, a, 0) == FindAddr(reg, a, i)
      {
        if reg[i].addr == a {
          return i;
        }
      }
      return |reg|;
    }

    method ByAddrAndSeed(a: Char16, seed: int) returns (k: nat)
      ensures k == FindAddrSeed(reg, a, seed, 0)
    {
      for i := 0 to |reg|
        invariant FindAddrSeed(reg, a, seed, 0) == FindAddrSeed(reg, a, seed, i)
      {
        if reg[i].addr == a && reg[i].seed == seed {
          return i;
        }
      }
      return |reg|;
    }

    method Update(k: nat, lat: seq<Byte>, lon: seq<Byte>, now: int)
      requires k < |reg|
      modifies this`reg
      ensures reg == old(reg)[k := old(reg)[k].(lat := lat, lon := lon, lastSeen := now)]
    {
      reg := reg[k := reg[k].(lat := lat, lon := lon)];
      reg := reg[k := reg[k].(lastSeen := now)];
    }
  }

  class RequestHandler {
    const sock: nat
    const registry: RegistryStore
    var app: Location          // the location remembered from datagrams
    var outMsg: seq<Byte>
    var pos: nat               // where the buffer of outMsg stands

    constructor (s: nat, r: RegistryStore)
      ensures sock == s && registry == r && app == Location(0, Zeros(8), Zeros(8)) && outMsg == [] && pos == 0
    {
      sock, registry, outMsg, pos := s, r, [], 0;
      app := Location(0, Zeros(8), Zeros(8));
    }

    /** A first connection: the next address, a fresh seed, and a welcome. */
    method AdmitNode(lat: seq<Byte>, lon: seq<Byte>, now: int, draw: int) returns (reply: Reply)
      requires -0x8000_0000 <= draw <= 0x7fff_ffff
      modifies this`outMsg, registry
      ensures reply == Welcome(old(registry.addr) % 0x1_0000, draw) && outMsg == ReplyBytes(reply)
      ensures registry.State() == Admit(old(registry.State()), Node(sock, reply.addr, draw, now, lat, lon))
    {
      var c := registry.GetAddr();
      registry.reg := registry.reg + [Node(sock, c, draw, now, lat, lon)];
      outMsg := [REG_REPLY_WELCOME, 0x06] + PutChar(c) + PutInt(draw);
      return Welcome(c, draw);
    }

    /** A reconnection: refused when unknown or expired, else refreshed. */
    method Rejoin(a: Char16, seed: int, lat: seq<Byte>, lon: seq<Byte>, now: int) returns (reply: Reply)
      modifies this`outMsg, registry
      ensures var k := FindAddrSeed(old(registry.reg), a, seed, 0);
        if k == |old(registry.reg)| || now - old(registry.reg)[k].lastSeen > TIME_THRESHOLD_MS then
          reply == Fail && registry.State() == old(registry.State())
        else
          && reply == Pong && registry.addr == old(registry.addr)
          && registry.reg == old(registry.reg)[k := old(registry.reg)[k].(lat := lat, lon := lon, lastSeen := now)]
      ensures !reply.Welcome? && outMsg == ReplyBytes(reply)
    {
      var k := registry.ByAddrAndSeed(a, seed);
      if k == |registry.reg| {
        outMsg := [REG_REPLY_FAIL, 0x00];
        return Fail;
      }
      if now - registry.reg[k].lastSeen > TIME_THRESHOLD_MS {
        outMsg := [REG_REPLY_FAIL, 0x00];
        return Fail;
      }
      registry.Update(k, lat, lon, now);
      outMsg := [REG_REPLY_PONG, 0x00];
      return Pong;
    }

    /** Processing a registration request. `draw` is the seed a new node would get; a payload too
        short for what is read from it throws (`None`) and changes nothing. */
    method ProcessRegistration(payload: seq<Byte>, now: int, draw: int) returns (reply: Option<Reply>)
      requires -0x8000_0000 <= draw <= 0x7fff_ffff
      modifies this`outMsg, registry
      ensures reply.None? <==> !WellFormed(old(registry.State()), sock, payload)
      ensures reply.None? ==> registry.State() == old(registry.State())
      ensures reply.Some? ==>
        (registry.State(), reply.value) == Register(old(registry.State()), sock, payload, now, draw)
      ensures reply.Some? ==> (reply.value.Welcome? ==> reply.value.seed == draw) && outMsg == ReplyBytes(reply.value)
    {
      var n := registry.BySocket(sock);
      if |payload| < ADDR_OFFSET {
        return None;
      }
      var lat, lon := payload[1..1 + 8], payload[9..9 + 8];
      if n < |registry.reg| {
        registry.Update(n, lat, lon, now);
        outMsg := [REG_REPLY_PONG, 0x00];
        return Some(Pong);
      }
      if |payload| < REQUEST_LEN {
        return None;
      }
      var a, seed := RequestAddr(payload), RequestSeed(payload);
      var r;
      if seed == 0 && a == 0 {
        r := AdmitNode(lat, lon, now, draw);
      } else {
        r := Rejoin(a, seed, lat, lon, now);
      }
      return Some(r);
    }

    /** Processing a datagram: the frame is kept verbatim, its location remembered, its sender's time
        refreshed. A frame shorter than its trailer throws. */
    method ProcessDatagram(header: seq<Byte>, payload: seq<Byte>, now: int) returns (ok: bool)
      requires |header| == HEADER_LEN
      modifies this`outMsg, this`pos, this`app, registry
      ensures ok <==> HasTrailer(payload)
      ensures outMsg == header + payload && pos == 0
      ensures app == if ok then Remember(old(app), outMsg) else old(app)
      ensures registry.State() == if ok then Touch(old(registry.State()), sock, now) else old(registry.State())
    {
      outMsg, pos := header + payload, 0;
      if |outMsg| < 18 {
        return false;
      }
      var l := LocationAt(outMsg);
      if l.radius != 0 && !IsZero(l.lat) && !IsZero(l.lon) {
        app := l;
      }
      var n := registry.BySocket(sock);
      if n < |registry.reg| {
        registry.reg := registry.reg[n := registry.reg[n].(lastSeen := now)];
      }
      return true;
    }

    /** Which nodes a datagram is written to, in order. */
    method Route(near: Near, ghost before: Location) returns (targets: seq<nat>)
      requires |outMsg| >= TRAILER_LEN && app == Remember(before, outMsg)
      ensures targets == Targets(registry.reg, sock, outMsg, near)
    {
      targets := [];
      var l := LocationAt(outMsg);
      var dst := CharAt(outMsg[4], outMsg[5]);
      var k := registry.ByAddr(dst);
      if k < |registry.reg| {
        OwnLocationDecides(registry.reg[k], before, outMsg, near);
        if !(IsSet(app) && IsSet(l)) || near(registry.reg[k].lat, registry.reg[k].lon, app) {
          targets := [k];
        }
      }
      if dst == 0xffff {
        ghost var unicast := targets;
        for i := 0 to |registry.reg|
          invariant targets == unicast + BroadcastTargets(registry.reg, i, sock, outMsg, near)
        {
          if registry.reg[i].sock != sock {
            OwnLocationDecides(registry.reg[i], before, outMsg, near);
            if !(IsSet(app) && IsSet(l)) || near(registry.reg[i].lat, registry.reg[i].lon, app) {
              targets := targets + [i];
            }
          }
        }
      }
    }

    /** One run's writes of a datagram: `accepts` is what each target's socket takes. A frame of an
        unknown kind makes the handler do this again, from where the buffer then stands. */
    method WritePieces(accepts: seq<nat>) returns (pieces: seq<seq<Byte>>)
      requires pos <= |outMsg|
      modifies this`pos
      ensures pieces == Pieces(outMsg, old(pos), accepts)
      ensures pos == Position(|outMsg|, old(pos), accepts, |accepts|)
    {
      pieces := [];
      for i := 0 to |accepts|
        invariant pos == Position(|outMsg|, old(pos), accepts, i)
        invariant pieces == Pieces(outMsg, old(pos), accepts)[..i]
      {
        var n := if accepts[i] <= |outMsg| - pos then accepts[i] else |outMsg| - pos;
        PieceIs(outMsg, old(pos), accepts, i);
        LastOfSum(accepts, i);
        pieces := pieces + [outMsg[pos..pos + n]];
        pos := pos + n;
      }
    }

    /** A run that has read a datagram: `process` and `write`. `accepts` says what the socket of the
        i-th write takes. A datagram shorter than its trailer throws, and nothing is written. */
    method Serve(header: seq<Byte>, payload: seq<Byte>, now: int, near: Near, accepts: nat -> nat)
      returns (ok: bool, targets: seq<nat>, pieces: seq<seq<Byte>>)
      requires |header| == HEADER_LEN
      modifies this`outMsg, this`pos, this`app, registry
      ensures ok <==> HasTrailer(payload)
      ensures registry.State() == if ok then Touch(old(registry.State()), sock, now) else old(registry.State())
      ensures targets == if ok then Targets(registry.reg, sock, header + payload, near) else []
      ensures pieces == Pieces(header + payload, 0, Accepted(|targets|, accepts))
    {
      ghost var before := app;
      ok := ProcessDatagram(header, payload, now);
      targets, pieces := [], [];
      if ok {
        targets := Route(near, before);
        pieces := WritePieces(Accepted(|targets|, accepts));
      }
    }
  }
}
