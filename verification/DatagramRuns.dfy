/** Many datagrams through the directory, and what the nodes' streams hold of them. */
module DatagramRuns {
  import opened Words
  import opened Serialization
  import opened NetworkPackets
  import opened StreamFraming
  import opened MidFrame
  import opened DatagramPath
  import Forwarding

  /** A datagram as its sender's writer framed it, and the directory when it passed it on. */
  datatype Sending = Sending(d: Datagram, hostsRootAgent: bool, app: Location, h: Hop)

  predicate Valid(s: Sending) {
    ValidLocation(s.app) && |s.d.payload| < 0x80
  }

  predicate AllValid(ss: seq<Sending>) {
    forall i :: 0 <= i < |ss| ==> Valid(ss[i])
  }

  function FrameOf(s: Sending): (frame: seq<Byte>)
    requires Valid(s)
    ensures |frame| >= 7 + TRAILER_LEN
  {
    FrameBytes(s.d, s.hostsRootAgent, s.app);
    DatagramFrame(s.d, s.hostsRootAgent, s.app)
  }

  function MessageOfSending(s: Sending): Frame
    requires Valid(s)
  {
    Message(s.d, s.hostsRootAgent, s.app)
  }

  function AsDecoded(d: Datagram): Datagram {
    Datagram(d.payload, Decoded(d.source), Decoded(d.dest))
  }

  /** All that the directory writes to the node at position `k`; positions never change. */
  function StreamOf(ss: seq<Sending>, k: nat): seq<Byte>
    requires AllValid(ss)
  {
    if ss == [] then []
    else
      var s := ss[|ss| - 1];
      StreamOf(ss[..|ss| - 1], k) + Inbox(s.h, FrameOf(s), k)
  }

  /** The node gets this datagram's whole frame. */
  predicate Gets(s: Sending, k: nat)
    requires Valid(s)
  {
    Inbox(s.h, FrameOf(s), k) == FrameOf(s)
  }

  /** The node's share is whole or nothing. */
  predicate Uncut(s: Sending, k: nat)
    requires Valid(s)
  {
    Gets(s, k) || Inbox(s.h, FrameOf(s), k) == []
  }

  predicate AllUncut(ss: seq<Sending>, k: nat)
    requires AllValid(ss)
  {
    forall i :: 0 <= i < |ss| ==> Uncut(ss[i], k)
  }

  /** The datagrams that the node gets whole, in order. */
  function Own(ss: seq<Sending>, k: nat): (own: seq<Sending>)
    requires AllValid(ss)
    ensures AllValid(own)
  {
    if ss == [] then []
    else
      var own := Own(ss[..|ss| - 1], k);
      if Gets(ss[|ss| - 1], k) then own + [ss[|ss| - 1]] else own
  }

  function Messages(ss: seq<Sending>): (fs: seq<Frame>)
    requires AllValid(ss)
    ensures |fs| == |ss|
  {
    seq(|ss|, i requires 0 <= i < |ss| => MessageOfSending(ss[i]))
  }

  function Datagrams(ss: seq<Sending>): (ds: seq<Datagram>)
    ensures |ds| == |ss|
  {
    seq(|ss|, i requires 0 <= i < |ss| => AsDecoded(ss[i].d))
  }

  // ----- A node's stream while no share is cut -----

  lemma MessagesAppend(ss: seq<Sending>, s: Sending)
    requires AllValid(ss) && Valid(s)
    ensures EncodeAll(Messages(ss + [s])) == EncodeAll(Messages(ss)) + FrameOf(s)
  {
    var fs := Messages(ss + [s]);
    MessageIsFrame(s.d, s.hostsRootAgent, s.app);
    assert fs[..|fs| - 1] == Messages(ss) && fs[|fs| - 1] == MessageOfSending(s);
  }

  /** The stream is the encoding of the node's own messages, in order. */
  lemma {:induction false} StreamIsOwn(ss: seq<Sending>, k: nat)
    requires AllValid(ss) && AllUncut(ss, k)
    ensures StreamOf(ss, k) == EncodeAll(Messages(Own(ss, k)))
    decreases |ss|
  {
    if ss != [] {
      var front, s := ss[..|ss| - 1], ss[|ss| - 1];
      StreamIsOwn(front, k);
      if Gets(s, k) { MessagesAppend(Own(front, k), s); }
    }
  }

  lemma MessagesFit(ss: seq<Sending>)
    requires AllValid(ss)
    ensures AllFit(Messages(ss))
  {
    forall i | 0 <= i < |ss| ensures FitsLengthByte(Messages(ss)[i]) {
      MessageIsFrame(ss[i].d, ss[i].hostsRootAgent, ss[i].app);
    }
  }

  lemma FirstHandedOver(f: Frame, fs: seq<Frame>, last: Option<seq<Byte>>, d: Datagram)
    requires f.kind == POBICOS_MSG && f.payload != [] && Unwrapped(f.payload) == Some(d)
    ensures HandedOver(SeenFrom([f] + fs, last)) == [d] + HandedOver(SeenFrom(fs, Some(f.payload)))
  {
    assert ([f] + fs)[1..] == fs;
    var log := SeenFrom([f] + fs, last);
    assert log[1..] == SeenFrom(fs, Some(f.payload));
  }

  lemma FirstOfAll(ss: seq<Sending>)
    requires AllValid(ss) && ss != []
    ensures Messages(ss) == [MessageOfSending(ss[0])] + Messages(ss[1..])
    ensures Datagrams(ss) == [AsDecoded(ss[0].d)] + Datagrams(ss[1..])
  {
  }

  lemma SendingHandedOver(s: Sending, fs: seq<Frame>, last: Option<seq<Byte>>) returns (next: Option<seq<Byte>>)
    requires Valid(s)
    ensures HandedOver(SeenFrom([MessageOfSending(s)] + fs, last)) == [AsDecoded(s.d)] + HandedOver(SeenFrom(fs, next))
  {
    var f := MessageOfSending(s);
    MessageIsFrame(s.d, s.hostsRootAgent, s.app);
    FirstHandedOver(f, fs, last, AsDecoded(s.d));
    next := Some(f.payload);
  }

  lemma {:induction false} MessagesHandedOver(ss: seq<Sending>, last: Option<seq<Byte>>)
    requires AllValid(ss)
    ensures HandedOver(SeenFrom(Messages(ss), last)) == Datagrams(ss)
    decreases |ss|
  {
    if ss != [] {
      FirstOfAll(ss);
      var next := SendingHandedOver(ss[0], Messages(ss[1..]), last);
      MessagesHandedOver(ss[1..], next);
    }
  }

  /** Over any list of datagrams of which the node's share is never cut, its stream parses to exactly
      its own messages, in order, and its Java side hands up exactly their datagrams, as decoded. */
  lemma OwnMessagesInOrder(ss: seq<Sending>, k: nat)
    requires AllValid(ss) && AllUncut(ss, k)
    ensures Parse(StreamOf(ss, k)) == (Messages(Own(ss, k)), [])
    ensures Carried(StreamOf(ss, k)) == Datagrams(Own(ss, k))
  {
    var own := Own(ss, k);
    StreamIsOwn(ss, k);
    MessagesFit(own);
    ParseInverts(Messages(own), []);
    assert EncodeAll(Messages(own)) + [] == EncodeAll(Messages(own));
    SeenIsSeenFrom(Messages(own));
    MessagesHandedOver(own, None);
  }

  // ----- When no share is cut -----

  /** Every socket takes whole frames at once. */
  ghost predicate TakesWhole(s: Sending)
    requires Valid(s)
  {
    forall i :: 0 <= i < |Targets(s.h, FrameOf(s))| ==> s.h.accepts(i) >= |FrameOf(s)|
  }

  /** Then the first target gets the frame and every other node gets nothing. */
  lemma FirstTargetGets(s: Sending, k: nat)
    requires Valid(s) && TakesWhole(s)
    ensures var ts := Targets(s.h, FrameOf(s));
      Uncut(s, k) && (Gets(s, k) <==> ts != [] && ts[0] == k)
  {
    Forwarding.InboxOfFirst(Targets(s.h, FrameOf(s)), FrameOf(s), s.h.accepts, k);
  }

  /** While every socket takes whole frames at once, each node's stream parses to exactly the messages
      whose first target it is, in order. */
  lemma FirstTargetsInOrder(ss: seq<Sending>, k: nat)
    requires AllValid(ss) && forall i :: 0 <= i < |ss| ==> TakesWhole(ss[i])
    ensures Parse(StreamOf(ss, k)) == (Messages(Own(ss, k)), [])
    ensures Carried(StreamOf(ss, k)) == Datagrams(Own(ss, k))
    ensures forall i :: 0 <= i < |ss| ==>
      var ts := Targets(ss[i].h, FrameOf(ss[i]));
      Gets(ss[i], k) <==> ts != [] && ts[0] == k
  {
    forall i | 0 <= i < |ss|
      ensures Uncut(ss[i], k)
      ensures var ts := Targets(ss[i].h, FrameOf(ss[i])); Gets(ss[i], k) <==> ts != [] && ts[0] == k
    {
      FirstTargetGets(ss[i], k);
    }
    OwnMessagesInOrder(ss, k);
  }

  // ----- When a share is cut -----

  /** Bytes that are read as the frames `fs`, then as one frame made of `cut` and of as many bytes of
      `next` as `f` misses, then as what is left of `next`. That one frame is `f` exactly when those
      bytes are the missing ones. */
  predicate ReadAcross(bytes: seq<Byte>, fs: seq<Frame>, f: Frame, cut: seq<Byte>, next: seq<Byte>)
    requires HEADER_LEN <= |cut| <= |Encode(f)| <= |cut| + |next|
  {
    var missing := |Encode(f)| - |cut|;
    var mixed := Frame(f.kind, cut[2..] + next[..missing]);
    && Parse(bytes) == (fs + ([mixed] + Parse(next[missing..]).0), Parse(next[missing..]).1)
    && (mixed == f <==> next[..missing] == Encode(f)[|cut|..])
  }

  /** A share cut short puts the node out of step: of the bytes that it gets `next`, its reader takes
      the first for the end of the message that was cut. */
  lemma CutPutsOutOfStep(ss: seq<Sending>, s: Sending, t: Sending, k: nat, cut: seq<Byte>, next: seq<Byte>)
    requires AllValid(ss) && AllUncut(ss, k) && Valid(s) && Valid(t)
    requires cut == Inbox(s.h, FrameOf(s), k) && next == Inbox(t.h, FrameOf(t), k)
    requires HEADER_LEN <= |cut| && cut < FrameOf(s) && |FrameOf(s)| <= |cut| + |next|
    ensures FrameOf(s) == Encode(MessageOfSending(s))
    ensures ReadAcross(StreamOf(ss + [s] + [t], k), Messages(Own(ss, k)), MessageOfSending(s), cut, next)
  {
    OwnMessagesInOrder(ss, k);
    FrameIsMessage(s);
    StreamOfTwoMore(ss, s, t, k);
    OutOfStep(StreamOf(ss, k), Messages(Own(ss, k)), MessageOfSending(s), cut, next);
  }

  lemma FrameIsMessage(s: Sending)
    requires Valid(s)
    ensures var f := MessageOfSending(s); FitsLengthByte(f) && f.kind == POBICOS_MSG && FrameOf(s) == Encode(f)
  {
    MessageIsFrame(s.d, s.hostsRootAgent, s.app);
  }

  lemma StreamOfTwoMore(ss: seq<Sending>, s: Sending, t: Sending, k: nat)
    requires AllValid(ss) && Valid(s) && Valid(t)
    ensures StreamOf(ss + [s] + [t], k)
         == StreamOf(ss, k) + Inbox(s.h, FrameOf(s), k) + Inbox(t.h, FrameOf(t), k)
  {
    assert (ss + [s] + [t])[..|ss| + 1] == ss + [s] && (ss + [s])[..|ss|] == ss;
  }

  lemma OutOfStep(own: seq<Byte>, fs: seq<Frame>, f: Frame, cut: seq<Byte>, next: seq<Byte>)
    requires Parse(own) == (fs, []) && FitsLengthByte(f)
    requires cut < Encode(f) && |cut| >= HEADER_LEN && |next| >= |Encode(f)| - |cut|
    ensures ReadAcross(own + cut + next, fs, f, cut, next)
  {
    assert own + cut + next == own + (cut + next);
    WholeThenMore(own, cut + next);
    ShortWriteSwallows(f, cut, next);
  }

  lemma WholeThenMore(x: seq<Byte>, y: seq<Byte>)
    requires Parse(x).1 == []
    ensures Parse(x + y) == (Parse(x).0 + Parse(y).0, Parse(y).1)
  {
    ParseContinues(x, y);
    assert [] + y == y;
  }
}
