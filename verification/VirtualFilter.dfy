/** The two layers under the communication component: the virtual-address filter, which rewrites
    the header type and appends a footer of addresses, and the hardware layer, which checks lengths
    and addresses and hands bytes to Java. */
module VirtualFilter {
  import opened Words
  import opened NetworkPackets

  const MAX_RADIO_MSG_DATA: nat := 60
  const FILTER_MAX_PAYLOAD: nat := 51
  const HW_MAX_PAYLOAD: nat := 55
  const FOOTER_LEN: nat := 4
  const GATEWAY: Word := 0
  const BROADCAST: Word := 0xffff
  const VIRTUAL_POOL_START: Word := 40000
  const VIRTUAL_POOL_RANGE: Word := 100

  /** A `PoRadioMsg`: a length and a buffer of fixed size. */
  datatype Msg = Msg(len: Octet, data: seq<Octet>)

  predicate ValidMsg(m: Msg) {
    |m.data| == MAX_RADIO_MSG_DATA
  }

  /** The bytes that count. */
  function Content(m: Msg): seq<Octet>
    requires m.len <= |m.data|
  {
    m.data[..m.len]
  }

  predicate IsAddrVirtual(addr: Word) {
    VIRTUAL_POOL_START <= addr < VIRTUAL_POOL_START + VIRTUAL_POOL_RANGE || addr == GATEWAY
  }

  predicate IsTypeVirtual(kind: Octet) {
    3 <= kind <= 5
  }

  predicate NeedsFooter(addr: Word) {
    IsAddrVirtual(addr) || addr == BROADCAST
  }

  // ----- Sending through the filter -----

  datatype SendResult = NotStarted | TooLarge | Sub(dest: Word, msg: Msg)

  function High(addr: Word): Octet {
    addr / 0x100 % 0x100
  }

  function Low(addr: Word): Octet {
    addr % 0x100
  }

  /** `uint8_t` addition. */
  function Plus(o: int, k: int): Octet {
    (o + k) % 0x100
  }

  function Join(high: Octet, low: Octet): Word {
    var h: int, l: int := high, low;
    h * 0x100 + l
  }

  function AddFooter(me: Word, addr: Word, m: Msg): (r: Msg)
    requires ValidMsg(m) && m.len <= FILTER_MAX_PAYLOAD
    ensures ValidMsg(r) && r.len == m.len + FOOTER_LEN
  {
    var n := m.len;
    var d := m.data[0 := Plus(m.data[0], 3)];
    Msg(n + 4, d[n := High(me)][n + 1 := Low(me)][n + 2 := High(addr)][n + 3 := Low(addr)])
  }

  /** What the filter asks of the layer below once it knows its own address. */
  function SendFrom(me: Word, addr: Word, m: Msg): SendResult
    requires ValidMsg(m)
  {
    if m.len > FILTER_MAX_PAYLOAD then TooLarge
    else if NeedsFooter(addr) then
      Sub(if addr != BROADCAST then GATEWAY else addr, AddFooter(me, addr, m))
    else Sub(addr, m)
  }

  // ----- Arrivals at the filter -----

  /** `OutOfBounds`: the footer would be read before the buffer. */
  datatype Arrival = Dropped | Delivered(source: Word, msg: Msg) | OutOfBounds

  predicate HasFooter(me: Word, link: Word, m: Msg)
    requires ValidMsg(m)
  {
    m.len <= FILTER_MAX_PAYLOAD + FOOTER_LEN && (link == GATEWAY || me == GATEWAY) && IsTypeVirtual(m.data[0])
  }

  /** An over-long message is only warned about. The type is changed before the footer is read. */
  function Arrive(me: Word, link: Word, m: Msg): Arrival
    requires ValidMsg(m)
  {
    if !HasFooter(me, link, m) then Delivered(link, m)
    else if m.len < 4 then OutOfBounds
    else
      var n := m.len;
      var d := m.data[0 := m.data[0] - 3];
      var source := Join(d[n - 4], d[n - 3]);
      var dest := Join(d[n - 2], d[n - 1]);
      if dest != me && dest != BROADCAST then Dropped else Delivered(source, Msg(n - 4, d))
  }

  class RadioMsg {
    var len: Octet
    const data: array<Octet>

    constructor (m: Msg)
      requires ValidMsg(m)
      ensures Valid() && Value() == m && fresh(data)
    {
      len := m.len;
      data := new Octet[MAX_RADIO_MSG_DATA](i requires 0 <= i < |m.data| => m.data[i]);
    }

    ghost predicate Valid() {
      data.Length == MAX_RADIO_MSG_DATA
    }

    function Value(): Msg
      reads this, data
    {
      Msg(len, data[..])
    }
  }

  class Filter {
    var myAddr: Word

    constructor ()
      ensures myAddr == BROADCAST
    {
      myAddr := 0xffff;
    }

    /** `PoNetworkMngrI.joined`. */
    method Joined(addr: Word)
      modifies this
      ensures myAddr == addr
    {
      myAddr := addr;
    }

    /** `PoDatagramTransportI.sendMsg`; `network` is what `getMyNetworkAddr` answers. The caller's
        message is copied, not changed. */
    method SendMsg(addr: Word, msg: RadioMsg, network: Option<Word>) returns (r: SendResult)
      requires msg.Valid()
      modifies this
      ensures myAddr == if old(myAddr) != BROADCAST || network.None? then old(myAddr) else network.value
      ensures r == if old(myAddr) == BROADCAST && network.None? then NotStarted
                   else SendFrom(myAddr, addr, msg.Value())
    {
      var temp := new RadioMsg(msg.Value());
      if myAddr == 0xffff {
        if network.None? {
          return NotStarted;
        }
        myAddr := network.value;
      }
      if msg.len > 51 {
        return TooLarge;
      } else if NeedsFooter(addr) {
        temp.data[0] := Plus(temp.data[0], 3);
        temp.data[temp.len] := High(myAddr);
        temp.data[temp.len + 1] := Low(myAddr);
        temp.data[temp.len + 2] := High(addr);
        temp.data[temp.len + 3] := Low(addr);
        temp.len := temp.len + 4;
        assert temp.Value().data == AddFooter(myAddr, addr, msg.Value()).data;
        if addr != 0xffff {
          return Sub(GATEWAY, temp.Value());
        }
      }
      return Sub(addr, temp.Value());
    }

    /** `SubDatagram.msgArrived`; the message is rewritten where it lies, even when dropped. */
    method MsgArrived(link: Word, msg: RadioMsg) returns (r: Arrival)
      requires msg.Valid()
      modifies msg, msg.data
      ensures r == Arrive(myAddr, link, old(msg.Value()))
      ensures r.Delivered? ==> msg.Value() == r.msg
    {
      if msg.len > FILTER_MAX_PAYLOAD + 4 {
      } else if (link == GATEWAY || myAddr == GATEWAY) && IsTypeVirtual(msg.data[0]) {
        if msg.len < 4 {
          return OutOfBounds;
        }
        ghost var n, d := msg.len, msg.data[..];
        msg.data[0] := msg.data[0] - 3;
        assert msg.data[..] == d[0 := d[0] - 3];
        var source := Join(msg.data[msg.len - 4], msg.data[msg.len - 3]);
        var dest := Join(msg.data[msg.len - 2], msg.data[msg.len - 1]);
        msg.len := msg.len - 4;
        if dest != myAddr && dest != BROADCAST {
          return Dropped;
        }
        return Delivered(source, msg.Value());
      }
      return Delivered(link, msg.Value());
    }
  }

  // ----- What the footer does -----

  /** Signals `m`, byte for byte, as coming from `source`. */
  predicate Restores(r: Arrival, source: Word, m: Msg) {
    && r.Delivered? && r.source == source
    && ValidMsg(r.msg) && ValidMsg(m) && m.len <= MAX_RADIO_MSG_DATA
    && r.msg.len == m.len && Content(r.msg) == Content(m)
  }

  lemma JoinInverts(addr: Word)
    ensures Join(High(addr), Low(addr)) == addr % 0x1_0000
  {
    assert addr % 0x1_0000 == addr / 0x100 % 0x100 * 0x100 + addr % 0x100;
  }

  /** The type byte of a non-empty message is recognised as virtual after sending exactly when it
      was one of the three plain types; an empty one loses it to the footer. */
  lemma FooterKeepsTypeIff(me: Word, addr: Word, m: Msg)
    requires ValidMsg(m) && m.len <= FILTER_MAX_PAYLOAD
    ensures m.len > 0 ==> (IsTypeVirtual(AddFooter(me, addr, m).data[0]) <==> m.data[0] <= 2)
    ensures m.len == 0 ==> AddFooter(me, addr, m).data[0] == High(me)
  {
  }

  /** The footer byte by byte: both addresses, most significant bytes first, after the message's own
      bytes, of which the first is the type moved up by 3. */
  lemma FooterIs(me: Word, addr: Word, m: Msg)
    requires ValidMsg(m) && 0 < m.len <= 51
    ensures var w, kind: int := AddFooter(me, addr, m), m.data[0];
      && w.len == m.len + 4 && w.data[0] == (kind + 3) % 0x100 && w.data[1..m.len] == m.data[1..m.len]
      && w.data[m.len..m.len + 4] == [me / 0x100 % 0x100, me % 0x100, addr / 0x100 % 0x100, addr % 0x100]
  {
  }

  /** Which arrivals are passed on as they are, and which have their footer read before the buffer: only
      a message of at most 55 bytes, from or at the gateway, of type 3, 4 or 5, has one. */
  lemma ArrivesAsIs(me: Word, link: Word, m: Msg)
    requires ValidMsg(m)
    ensures m.len > 55 || (link != 0 && me != 0) || !(3 <= m.data[0] <= 5) ==> Arrive(me, link, m) == Delivered(link, m)
    ensures Arrive(me, link, m) == OutOfBounds <==> m.len < 4 && (link == 0 || me == 0) && 3 <= m.data[0] <= 5
  {
  }

  /** Taking off the footer that sending put on. */
  lemma UnwrapInverts(me: Word, addr: Word, m: Msg, receiver: Word, link: Word)
    requires ValidMsg(m) && 0 < m.len <= FILTER_MAX_PAYLOAD && m.data[0] <= 2
    requires receiver == GATEWAY || link == GATEWAY
    ensures var r := Arrive(receiver, link, AddFooter(me, addr, m));
      && (r == Dropped <==> addr % 0x1_0000 != receiver && addr % 0x1_0000 != BROADCAST)
      && (r != Dropped ==> Restores(r, me % 0x1_0000, m))
  {
    var w := AddFooter(me, addr, m);
    var n := m.len;
    var d := w.data[0 := w.data[0] - 3];
    assert d[n] == High(me) && d[n + 1] == Low(me) && d[n + 2] == High(addr) && d[n + 3] == Low(addr);
    JoinInverts(me);
    JoinInverts(addr);
    assert d[0] == m.data[0];
    assert d[..n] == m.data[..n];
  }

  /** The filter's round trip, in every case of sender and receiver: a virtual or broadcast
      datagram is unwrapped to its type, bytes, length and source exactly when the link sender or
      the receiver is the gateway and the footer names the receiver or everybody. */
  lemma FilterRoundTrip(me: Word, addr: Word, m: Msg, receiver: Word, link: Word)
    requires ValidMsg(m) && 0 < m.len <= FILTER_MAX_PAYLOAD && m.data[0] <= 2
    requires me < 0x1_0000 && NeedsFooter(addr)
    ensures SendFrom(me, addr, m).Sub?
    ensures var w := SendFrom(me, addr, m).msg;
      var r := Arrive(receiver, link, w);
      if receiver != GATEWAY && link != GATEWAY then r == Delivered(link, w) && IsTypeVirtual(w.data[0])
      else if addr == receiver || addr == BROADCAST then Restores(r, me, m)
      else r == Dropped
  {
    FooterKeepsTypeIff(me, addr, m);
    if receiver == GATEWAY || link == GATEWAY {
      UnwrapInverts(me, addr, m, receiver, link);
    }
  }

  // ----- The hardware layer -----

  datatype HwResult =
    | HwNotStarted
    | HwTooLarge
    | Loopback(source: Word, msg: Msg)
    | Handed(d: Datagram)

  function Bytes(os: seq<Octet>): (bs: seq<Byte>)
    ensures |bs| == |os| && forall i :: 0 <= i < |os| ==> bs[i] == ToByte(os[i])
  {
    seq(|os|, i requires 0 <= i < |os| => ToByte(os[i]))
  }

  function OctetsOf(bs: seq<Byte>): (os: seq<Octet>)
    ensures |os| == |bs| && forall i :: 0 <= i < |bs| ==> os[i] == ToOctet(bs[i])
  {
    seq(|bs|, i requires 0 <= i < |bs| => ToOctet(bs[i]))
  }

  /** The cast to a `jchar`. */
  function Low16(w: Word): (c: Char16)
    ensures w < 0x1_0000 ==> c == w
  {
    w % 0x1_0000
  }

  /** `PoHWCommM` send: the addresses are cast to 16-bit `jchar`s. */
  function HwSend(started: bool, me: Word, addr: Word, m: Msg): (r: HwResult)
    requires ValidMsg(m)
    ensures r.Handed? ==> |r.d.payload| <= HW_MAX_PAYLOAD
  {
    if !started then HwNotStarted
    else if m.len > HW_MAX_PAYLOAD || m.len > MAX_RADIO_MSG_DATA then HwTooLarge
    else if addr == me then Loopback(me, m)
    else Handed(Datagram(Bytes(m.data[..m.len]), Low16(me), Low16(addr)))
  }

  /** `nativeReceivedPacket`: `stack` is what the local message buffer held before. */
  function HwReceive(me: Word, d: Datagram, stack: seq<Octet>): (r: Option<Msg>)
    requires |stack| == MAX_RADIO_MSG_DATA && |d.payload| < 0x80
    ensures r.Some? ==> ValidMsg(r.value)
  {
    if d.dest != me && d.dest != BROADCAST then None
    else if |d.payload| > MAX_RADIO_MSG_DATA then None
    else Some(Msg(|d.payload|, OctetsOf(d.payload) + stack[|d.payload|..]))
  }

  /** Nothing the filter passes down is too large for the hardware layer. */
  lemma FilterOutputFits(me: Word, addr: Word, m: Msg)
    requires ValidMsg(m)
    ensures var sent := SendFrom(me, addr, m);
      sent.Sub? ==> ValidMsg(sent.msg) && HwSend(true, me, sent.dest, sent.msg) != HwTooLarge
    ensures SendFrom(me, addr, m) == TooLarge <==> m.len > 51
  {
  }

  lemma OctetsSurvive(os: seq<Octet>)
    ensures OctetsOf(Bytes(os)) == os
  {
    forall i | 0 <= i < |os| ensures OctetsOf(Bytes(os))[i] == os[i] {
      OctetOfByte(os[i]);
    }
  }

  lemma BytesReceived(m: Msg, receiver: Word, stack: seq<Octet>, d: Datagram)
    requires ValidMsg(m) && m.len <= HW_MAX_PAYLOAD && |stack| == MAX_RADIO_MSG_DATA
    requires d.payload == Bytes(Content(m))
    ensures var r := HwReceive(receiver, d, stack);
      && (r.Some? <==> d.dest == receiver || d.dest == BROADCAST)
      && (r.Some? ==> r.value.len == m.len && Content(r.value) == Content(m))
  {
    OctetsSurvive(Content(m));
  }

  /** A node takes exactly the datagrams of at most 60 bytes for its address or for everybody, and takes
      all of their bytes. */
  lemma ReceivesIff(me: Word, d: Datagram, stack: seq<Octet>)
    requires |stack| == MAX_RADIO_MSG_DATA && |d.payload| < 0x80
    ensures var r := HwReceive(me, d, stack);
      && (r.Some? <==> (d.dest == me || d.dest == 0xffff) && |d.payload| <= 60)
      && (r.Some? ==> r.value.len == |d.payload| && Content(r.value) == OctetsOf(d.payload))
  {
  }

  /** A message of at most 55 bytes for another node is handed down, and each node that the low 16
      bits of the destination name, and no other, receives it with the same length and bytes. One for
      the node itself comes back to it unchanged, as from its own address. */
  lemma HwRoundTrip(me: Word, addr: Word, m: Msg, receiver: Word, stack: seq<Octet>)
    requires ValidMsg(m) && |stack| == MAX_RADIO_MSG_DATA
    ensures HwSend(true, me, addr, m).Handed? <==> m.len <= 55 && addr != me
    ensures m.len <= 55 && addr == me ==> HwSend(true, me, addr, m) == Loopback(me, m)
    ensures m.len > 55 ==> HwSend(true, me, addr, m) == HwTooLarge
    ensures HwSend(true, me, addr, m).Handed? ==>
      var d := HwSend(true, me, addr, m).d;
      var r := HwReceive(receiver, d, stack);
      && d.source == Low16(me)
      && (r.Some? <==> Low16(addr) == receiver || Low16(addr) == BROADCAST)
      && (r.Some? ==> r.value.len == m.len && Content(r.value) == Content(m))
  {
    if m.len <= HW_MAX_PAYLOAD && addr != me {
      BytesReceived(m, receiver, stack, HwSend(true, me, addr, m).d);
    }
  }

  /** What the filter signals when the hardware layer loops its message back. */
  function LoopedBack(me: Word, addr: Word, m: Msg): Option<Arrival>
    requires ValidMsg(m)
  {
    var sent := SendFrom(me, addr, m);
    if !sent.Sub? || !ValidMsg(sent.msg) then None
    else
      match HwSend(true, me, sent.dest, sent.msg)
      case Loopback(source, back) => Some(Arrive(me, source, back))
      case _ => None
  }

  /** Which messages never leave the node, and what it hears of them: those for its own plain address,
      unchanged; the gateway's for virtual addresses, of which it restores those for itself and drops
      the others; and the broadcasts of the node of address 0xFFFF, which keep their footer. */
  lemma LoopedBackIs(me: Word, addr: Word, m: Msg)
    requires ValidMsg(m) && 0 < m.len <= 51 && m.data[0] <= 2 && me < 0x1_0000
    ensures var r := LoopedBack(me, addr, m);
      && (r.Some? <==> (addr == me && !(40000 <= me < 40100)) || (me == 0 && 40000 <= addr < 40100))
      && (addr == me && !NeedsFooter(me) ==> r == Some(Delivered(me, m)))
      && (me == 0 && addr == 0 ==> Restores(r.value, 0, m))
      && (me == 0 && 40000 <= addr < 40100 ==> r == Some(Dropped))
      && (addr == me == 0xffff ==> r == Some(Delivered(0xffff, AddFooter(0xffff, 0xffff, m))))
  {
    if NeedsFooter(addr) && me == GATEWAY && IsAddrVirtual(addr) { UnwrapInverts(me, addr, m, me, me); }
  }

  class HwComm {
    var started: bool     // any state but S_INITIAL
    var myAddr: Word

    constructor ()
      ensures !started && myAddr == BROADCAST
    {
      started, myAddr := false, 0xffff;
    }

    method GetMyNetworkAddr() returns (addr: Option<Word>)
      ensures addr == if started then Some(myAddr) else None
    {
      return if started then Some(myAddr) else None;
    }

    /** `joinNetwork` with the address Java answers. */
    method JoinNetwork(given: Char16) returns (addr: Word)
      modifies this
      ensures started && myAddr == addr == given
    {
      myAddr := given;
      addr := myAddr;
      started := true;
    }

    method SendMsg(addr: Word, msg: RadioMsg) returns (r: HwResult)
      requires msg.Valid()
      ensures r == HwSend(started, myAddr, addr, msg.Value())
    {
      if !started {
        return HwNotStarted;
      }
      if msg.len > 55 || msg.len > MAX_RADIO_MSG_DATA {
        return HwTooLarge;
      }
      if addr == myAddr {
        return Loopback(myAddr, msg.Value());
      }
      var buf: seq<Byte> := [];
      for i := 0 to msg.len
        invariant buf == Bytes(msg.data[..i])
      {
        buf := buf + [ToByte(msg.data[i])];
        assert msg.data[..i + 1] == msg.data[..i] + [msg.data[i]];
      }
      return Handed(Datagram(buf, Low16(myAddr), Low16(addr)));
    }

    /** `nativeReceivedPacket` into the local buffer `rx`; `accepted` says whether it is signalled. */
    method NativeReceivedPacket(d: Datagram, rx: RadioMsg) returns (accepted: bool)
      requires rx.Valid() && |d.payload| < 0x80
      modifies rx, rx.data
      ensures accepted <==> HwReceive(myAddr, d, old(rx.data[..])).Some?
      ensures accepted ==> rx.Value() == HwReceive(myAddr, d, old(rx.data[..])).value
    {
      if d.dest != myAddr && d.dest != BROADCAST {
        return false;
      }
      if |d.payload| > MAX_RADIO_MSG_DATA {
        return false;
      }
      ghost var stack := rx.data[..];
      for i := 0 to |d.payload|
        invariant rx.data[..i] == OctetsOf(d.payload[..i]) && rx.data[i..] == stack[i..]
      {
        rx.data[i] := ToOctet(d.payload[i]);
        assert d.payload[..i + 1] == d.payload[..i] + [d.payload[i]];
      }
      assert d.payload[..|d.payload|] == d.payload;
      assert rx.data[..] == rx.data[..|d.payload|] + rx.data[|d.payload|..];
      rx.len := |d.payload|;
      return true;
    }
  }

  // ----- Both layers together -----

  /** The filter on top of the hardware layer, as the middleware wires them. */
  class CommStack {
    const filter: Filter
    const hw: HwComm

    constructor ()
      ensures fresh(filter) && fresh(hw) && Alone()
    {
      filter := new Filter();
      hw := new HwComm();
    }

    /** Before the network is joined neither layer knows its address; then both know the same. */
    predicate Agrees()
      reads filter, hw
    {
      if hw.started then filter.myAddr == hw.myAddr else filter.myAddr == BROADCAST
    }

    predicate Alone()
      reads filter, hw
    {
      Agrees() && !hw.started
    }

    /** `joinNetwork`, which signals `joined` upwards. */
    method Join(given: Char16)
      modifies filter, hw
      ensures Agrees() && hw.started && hw.myAddr == given
    {
      var addr := hw.JoinNetwork(given);
      filter.Joined(addr);
    }

    /** A message from the component above: what the filter answers and, when it passes one down,
        what the hardware layer does with it. A stack that has joined is never refused as not
        started, and what the filter lets through is never too large below. */
    method Send(addr: Word, msg: RadioMsg) returns (r: SendResult, below: Option<HwResult>)
      requires msg.Valid() && Agrees()
      modifies filter
      ensures Agrees() && (r == NotStarted <==> !hw.started)
      ensures hw.started ==> r == SendFrom(hw.myAddr, addr, msg.Value())
      ensures below ==
        if r.Sub? && ValidMsg(r.msg) then Some(HwSend(true, hw.myAddr, r.dest, r.msg)) else None
      ensures below.Some? <==> r.Sub?
      ensures below.Some? ==> below.value.Loopback? || below.value.Handed?
    {
      var network := hw.GetMyNetworkAddr();
      r := filter.SendMsg(addr, msg, network);
      below := None;
      if r.Sub? {
        FilterOutputFits(hw.myAddr, addr, msg.Value());
        var down := new RadioMsg(r.msg);
        var answer := hw.SendMsg(r.dest, down);
        below := Some(answer);
      }
    }
  }
}
