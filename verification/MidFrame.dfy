/** What a client makes of a part of a datagram's frame: the bytes between two positions of the
    directory's shared buffer, read from the start of a stream. */
module MidFrame {
  import opened Words
  import opened Serialization
  import opened NetworkPackets
  import opened StreamFraming

  // ----- Frames and parts of frames on a stream -----

  /** The message that the frame of `d` is. */
  function Message(d: Datagram, hostsRootAgent: bool, app: Location): Frame
    requires ValidLocation(app)
  {
    Frame(POBICOS_MSG, Wrapped(d) + Trailer(hostsRootAgent, app))
  }

  lemma MessageIsFrame(d: Datagram, hostsRootAgent: bool, app: Location)
    requires ValidLocation(app) && |d.payload| < 0x80
    ensures var f := Message(d, hostsRootAgent, app);
      && DatagramFrame(d, hostsRootAgent, app) == Encode(f) && FitsLengthByte(f) && Plain(f)
      && Unwrapped(f.payload) == Some(Datagram(d.payload, Decoded(d.source), Decoded(d.dest)))
  {
    DatagramSurvives(d, Trailer(hostsRootAgent, app));
  }

  /** A node's bytes are one message and nothing else exactly when they are its whole frame. */
  lemma ArrivesWholeIff(f: Frame, bytes: seq<Byte>)
    requires FitsLengthByte(f)
    ensures Parse(bytes) == ([f], []) <==> bytes == Encode(f)
  {
    EncodeAllSplits(f, []);
    assert [f] + [] == [f] && Encode(f) + EncodeAll([]) == Encode(f);
    if bytes == Encode(f) {
      ParseOne(f, []);
      assert Encode(f) + [] == Encode(f);
    } else if Parse(bytes) == ([f], []) {
      WholeFramesEncode(bytes);
    }
  }

  /** A write cut short inside the payload or before it leaves a rest that swallows what comes next:
      the node gets nothing until as many bytes as are missing have followed, and then a payload
      made of both. It is the message sent only if what follows begins with the missing bytes. */
  lemma ShortWriteSwallows(f: Frame, cut: seq<Byte>, next: seq<Byte>)
    requires FitsLengthByte(f) && cut < Encode(f) && |cut| >= HEADER_LEN
    ensures var missing := |Encode(f)| - |cut|;
      && (|next| < missing ==> Parse(cut + next) == ([], cut + next))
      && (|next| >= missing ==>
           && Parse(cut + next).0 == [Frame(f.kind, cut[2..] + next[..missing])] + Parse(next[missing..]).0
           && Parse(cut + next).1 == Parse(next[missing..]).1
           && (Parse(cut + next).0[0] == f <==> next[..missing] == Encode(f)[|cut|..]))
  {
    OctetOfByte(|f.payload|);
    assert cut[0] == Encode(f)[0] && cut[1] == Encode(f)[1];
    RestSwallows(cut, next);
    if |next| >= |Encode(f)| - |cut| { CompletesIff(f, cut, next[..|Encode(f)| - |cut|]); }
  }

  lemma CompletesIff(f: Frame, cut: seq<Byte>, x: seq<Byte>)
    requires cut < Encode(f) && |cut| >= HEADER_LEN && |x| == |Encode(f)| - |cut|
    ensures cut[2..] + x == f.payload <==> x == Encode(f)[|cut|..]
  {
    assert f.payload == Encode(f)[2..] == cut[2..] + Encode(f)[|cut|..];
    assert (cut[2..] + x)[|cut| - 2..] == x && f.payload[|cut| - 2..] == Encode(f)[|cut|..];
  }

  /** Cut after its first byte, the length is taken from the next frame's kind. */
  lemma CutHeaderSwallows(f: Frame, g: Frame, rest: seq<Byte>)
    requires FitsLengthByte(f)
    ensures var n: int := ToOctet(g.kind);
      var next := Encode(g) + rest;
      && Parse([f.kind]) == ([], [f.kind])
      && (|next| < 1 + n ==> Parse([f.kind] + next) == ([], [f.kind] + next))
      && (|next| >= 1 + n ==>
           && Parse([f.kind] + next).0 == [Frame(f.kind, next[1..1 + n])] + Parse(next[1 + n..]).0
           && Parse([f.kind] + next).1 == Parse(next[1 + n..]).1)
  {
    OneByteSwallows([f.kind], Encode(g) + rest);
  }

  /** A stream that starts with any part of a frame, or with any bytes at all: the frames that those
      bytes hold are read, and what is left of them swallows the bytes it misses from what comes
      next. The reader is in step with what comes next exactly when nothing is left. */
  lemma PartSwallows(part: seq<Byte>, next: seq<Byte>)
    ensures var (fs, rest) := Parse(part);
      && Incomplete(rest)
      && (rest == [] ==> Parse(part + next) == (fs + Parse(next).0, Parse(next).1))
      && (|rest| >= 2 ==>
            var missing := 2 + ToOctet(rest[1]) - |rest|;
            && missing > 0
            && (|next| < missing ==> Parse(part + next) == (fs, rest + next))
            && (|next| >= missing ==>
                  var f := Frame(rest[0], rest[2..] + next[..missing]);
                  Parse(part + next) == (fs + ([f] + Parse(next[missing..]).0), Parse(next[missing..]).1)))
      && (|rest| == 1 && next != [] ==>
            var n: int := ToOctet(next[0]);
            && (|next| < 1 + n ==> Parse(part + next) == (fs, rest + next))
            && (|next| >= 1 + n ==>
                  var f := Frame(rest[0], next[1..1 + n]);
                  Parse(part + next) == (fs + ([f] + Parse(next[1 + n..]).0), Parse(next[1 + n..]).1)))
  {
    var fs, rest := Parse(part).0, Parse(part).1;
    ParseContinues(part, next);
    assert fs + [] == fs;
    if rest == [] {
      assert rest + next == next;
    } else if |rest| >= 2 {
      RestSwallows(rest, next);
    } else if next != [] {
      OneByteSwallows(rest, next);
    }
  }

  lemma OneByteSwallows(rest: seq<Byte>, next: seq<Byte>)
    requires |rest| == 1 && next != []
    ensures var n: int := ToOctet(next[0]);
      && (|next| < 1 + n ==> Parse(rest + next) == ([], rest + next))
      && (|next| >= 1 + n ==>
           && Parse(rest + next).0 == [Frame(rest[0], next[1..1 + n])] + Parse(next[1 + n..]).0
           && Parse(rest + next).1 == Parse(next[1 + n..]).1)
  {
    var n: int, bytes := ToOctet(next[0]), rest + next;
    assert bytes[0] == rest[0] && bytes[1] == next[0];
    if |next| >= 1 + n {
      assert bytes[2..2 + n] == next[1..1 + n] && bytes[2 + n..] == next[1 + n..];
    }
  }

  // ----- What a client hands to native code -----

  /** The datagrams unwrapped from what the reader acted on, in order. The reader stops at a frame
      that ends it, and the thread that unwraps stops at a payload it cannot unwrap. */
  function HandedOver(log: seq<Received>): seq<Datagram> {
    if log == [] || Ends(log[0]) then []
    else if log[0].kind != POBICOS_MSG then HandedOver(log[1..])
    else
      match Unwrapped(log[0].payload.value)
      case None => []
      case Some(d) => [d] + HandedOver(log[1..])
  }

  /** `Seen` from the front, with the buffer that earlier frames left. */
  function SeenFrom(fs: seq<Frame>, last: Option<seq<Byte>>): (log: seq<Received>)
    ensures |log| == |fs|
  {
    if fs == [] then [] else [Act(fs[0], last)] + SeenFrom(fs[1..], Act(fs[0], last).payload)
  }

  lemma {:induction false} SeenFromAppends(fs: seq<Frame>, f: Frame, last: Option<seq<Byte>>)
    ensures var log := SeenFrom(fs, last);
      SeenFrom(fs + [f], last) == log + [Act(f, if log == [] then last else log[|log| - 1].payload)]
    decreases |fs|
  {
    if fs == [] {
      assert fs + [f] == [f];
    } else {
      SeenFromAppends(fs[1..], f, Act(fs[0], last).payload);
      assert (fs + [f])[1..] == fs[1..] + [f];
    }
  }

  lemma {:induction false} SeenIsSeenFrom(fs: seq<Frame>)
    ensures SeenFrom(fs, None) == Seen(fs)
    decreases |fs|
  {
    if fs != [] {
      var front, f := fs[..|fs| - 1], fs[|fs| - 1];
      SeenIsSeenFrom(front);
      SeenFromAppends(front, f, None);
      assert fs == front + [f];
    }
  }

  /** What is handed over from bytes read after a stream that left `last`. */
  function CarriedAfter(bytes: seq<Byte>, last: Option<seq<Byte>>): seq<Datagram> {
    HandedOver(SeenFrom(Parse(bytes).0, last))
  }

  /** What is handed over from the bytes of a new stream. */
  function Carried(bytes: seq<Byte>): seq<Datagram> {
    HandedOver(Seen(Parse(bytes).0))
  }

  lemma CarriedIsAfterNothing(bytes: seq<Byte>)
    ensures Carried(bytes) == CarriedAfter(bytes, None)
  {
    SeenIsSeenFrom(Parse(bytes).0);
  }

  /** A whole frame first, then the rest. */
  lemma CarriedSplits(bytes: seq<Byte>, last: Option<seq<Byte>>)
    requires !Incomplete(bytes)
    ensures var n := 2 + ToOctet(bytes[1]);
      var r := Act(Frame(bytes[0], bytes[2..n]), last);
      CarriedAfter(bytes, last) ==
        if Ends(r) then []
        else if r.kind != POBICOS_MSG then CarriedAfter(bytes[n..], r.payload)
        else if Unwrapped(r.payload.value).None? then []
        else [Unwrapped(r.payload.value).value] + CarriedAfter(bytes[n..], r.payload)
  {
    var n := 2 + ToOctet(bytes[1]);
    var f, fs := Frame(bytes[0], bytes[2..n]), Parse(bytes[n..]).0;
    assert Parse(bytes).0 == [f] + fs;
    assert ([f] + fs)[1..] == fs;
    var r, log := Act(f, last), SeenFrom(fs, Act(f, last).payload);
    assert SeenFrom([f] + fs, last) == [r] + log && ([r] + log)[1..] == log;
  }

  lemma IncompleteCarriesNothing(bytes: seq<Byte>, last: Option<seq<Byte>>)
    requires Incomplete(bytes)
    ensures CarriedAfter(bytes, last) == []
  {
  }

  lemma {:induction false} SeenIsPrefix(fs: seq<Frame>, gs: seq<Frame>)
    ensures Seen(fs) <= Seen(fs + gs)
    decreases |gs|
  {
    if gs == [] {
      assert fs + gs == fs;
    } else {
      var n := |gs| - 1;
      SeenIsPrefix(fs, gs[..n]);
      assert (fs + gs)[..|fs| + n] == fs + gs[..n];
    }
  }

  /** Nothing is handed over from after a frame that ends the reader. */
  lemma {:induction false} EndStops(log: seq<Received>, more: seq<Received>)
    requires log != [] && Ends(log[|log| - 1])
    ensures HandedOver(log + more) == HandedOver(log)
    decreases |log|
  {
    if |log| > 1 {
      EndStops(log[1..], more);
      assert (log + more)[1..] == log[1..] + more;
    }
  }

  lemma EndedFrames(fs: seq<Frame>, gs: seq<Frame>)
    requires Ended(fs)
    ensures HandedOver(Seen(fs + gs)) == HandedOver(Seen(fs))
  {
    SeenIsPrefix(fs, gs);
    var log, all := Seen(fs), Seen(fs + gs);
    assert all == log + all[|log|..];
    EndStops(log, all[|log|..]);
  }

  lemma WholeFramesContinue(got: seq<Byte>, left: seq<Byte>)
    requires Parse(got).1 == []
    ensures Parse(got + left).0 == Parse(got).0 + Parse(left).0
  {
    ParseContinues(got, left);
    assert [] + left == left;
  }

  /** A reader that ended has seen all that its stream carries. */
  lemma EndedSawAll(got: seq<Byte>, left: seq<Byte>)
    requires Parse(got).1 == [] && Ended(Parse(got).0)
    ensures Carried(got + left) == Carried(got)
  {
    WholeFramesContinue(got, left);
    EndedFrames(Parse(got).0, Parse(left).0);
  }

  // ----- Bytes too few to carry a datagram -----

  /** Too short to be unwrapped. */
  predicate Small(last: Option<seq<Byte>>) {
    last.Some? ==> |last.value| < 5
  }

  /** A frame that carries a datagram takes at least 7 bytes. */
  lemma {:induction false} SixBytesCarryNothing(bytes: seq<Byte>, last: Option<seq<Byte>>)
    requires |bytes| < 7 && Small(last)
    ensures CarriedAfter(bytes, last) == []
    decreases |bytes|
  {
    if !Incomplete(bytes) {
      var n := 2 + ToOctet(bytes[1]);
      CarriedSplits(bytes, last);
      SixBytesCarryNothing(bytes[n..], Act(Frame(bytes[0], bytes[2..n]), last).payload);
    }
  }

  /** The kinds whose frames the client ignores. */
  predicate Ignored(kind: Byte) {
    kind != POBICOS_MSG && kind != REG_REPLY_FAIL && kind != REG_REPLY_WELCOME
  }

  /** After a frame that is ignored, at least 9 bytes are needed in all: 7 more, or 5 in the ignored
      frame's own buffer, which an empty datagram then shows again. */
  lemma EightBytesCarryNothing(bytes: seq<Byte>)
    requires |bytes| < 9 && (bytes == [] || Ignored(bytes[0]))
    ensures CarriedAfter(bytes, None) == []
  {
    if !Incomplete(bytes) {
      var n := 2 + ToOctet(bytes[1]);
      CarriedSplits(bytes, None);
      var last := Act(Frame(bytes[0], bytes[2..n]), None).payload;
      if n < 7 {
        SixBytesCarryNothing(bytes[n..], last);
      } else {
        IncompleteCarriesNothing(bytes[n..], last);
      }
    }
  }

  // ----- How long a part must be to carry a datagram -----

  const NEVER: nat := 0x1_0000

  /** Fewer bytes than this from position `p` of the frame of an `n`-byte payload carry nothing, for
      any destination. Positions 0, 1 and 6 of the frame are fixed by `n`; all others depend on
      addresses, payload and location. */
  function AnyRoom(n: nat, p: nat): nat {
    if p == 1 then 9
    else if p == 5 then if n >= 5 then n + 2 else n + 9
    else if p == 6 then
      if n == 1 then 7
      else if n == 3 then NEVER   // read as a rejection, which ends the reader
      else if n == 4 then 10      // read as a welcome, which needs 6 bytes
      else 9
    else 7
  }

  /** The least number of bytes from position `p` that some broadcast, that is, some message whose
      destination the directory reads as 0xFFFF, makes the client hand over a datagram from. Only
      broadcasts are cut mid-frame; position 5 of their frames is -1. */
  function Room(n: nat, p: nat): nat {
    if p == 4 then NEVER                      // read as a length of 255
    else if p == 5 && n >= 5 then n + 4       // an ignored frame, and an empty datagram that shows its buffer
    else AnyRoom(n, p)
  }

  /** The bytes from `p` to `q` carry nothing, whatever the broadcast of length `n`. */
  predicate Silent(n: nat, p: nat, q: nat)
    requires p <= q
  {
    if p == 0 then q < 7 + n + TRAILER_LEN else q - p < Room(n, p)
  }

  lemma FrameBytes(d: Datagram, hostsRootAgent: bool, app: Location)
    requires ValidLocation(app) && |d.payload| < 0x80
    ensures var frame, n := DatagramFrame(d, hostsRootAgent, app), |d.payload|;
      && |frame| == 7 + n + TRAILER_LEN
      && frame[0] == POBICOS_MSG && frame[1] == ToByte(n + 23) && frame[5] == LowByte(d.dest) && frame[6] == n
  {
    DatagramFrameEndsInTrailer(d, hostsRootAgent, app);
    ByteOfOctet(|d.payload|);
    var frame := DatagramFrame(d, hostsRootAgent, app);
    assert frame[5] == frame[2..|frame| - TRAILER_LEN][3] && frame[6] == frame[2..|frame| - TRAILER_LEN][4];
  }

  /** The destinations that the directory reads as 0xFFFF. */
  lemma ReadAsBroadcastIff(c: Char16)
    ensures Decoded(c) == 0xffff <==> LowByte(c) == -1
  {
  }

  lemma LengthIsIgnored(n: nat)
    requires n < 0x80
    ensures Ignored(ToByte(n + 23))
  {
  }

  lemma PrefixIsSilent(d: Datagram, hostsRootAgent: bool, app: Location, q: nat)
    requires ValidLocation(app) && |d.payload| < 0x80
    requires q < |DatagramFrame(d, hostsRootAgent, app)|
    ensures CarriedAfter(DatagramFrame(d, hostsRootAgent, app)[..q], None) == []
  {
    FrameBytes(d, hostsRootAgent, app);
    OctetOfByte(|d.payload| + 23);
    IncompleteCarriesNothing(DatagramFrame(d, hostsRootAgent, app)[..q], None);
  }

  /** Position 5: the length read is the payload's. */
  lemma SilentFromFive(n: nat, b: seq<Byte>)
    requires n < 0x80 && |b| < AnyRoom(n, 5) && (|b| >= 2 ==> b[1] == n)
    ensures CarriedAfter(b, None) == []
  {
    if !Incomplete(b) {
      CarriedSplits(b, None);
      var last := Act(Frame(b[0], b[2..2 + n]), None).payload;
      SixBytesCarryNothing(b[2 + n..], last);
    }
  }

  /** Position 6: the kind read is the payload's length. */
  lemma SilentFromSix(n: nat, b: seq<Byte>)
    requires n < 0x80 && |b| < AnyRoom(n, 6) && (b != [] ==> b[0] == n)
    ensures CarriedAfter(b, None) == []
  {
    if n == 1 {
      SixBytesCarryNothing(b, None);
    } else if n == 3 || n == 4 {
      if !Incomplete(b) {
        var k := 2 + ToOctet(b[1]);
        CarriedSplits(b, None);
        if n == 4 && k >= 8 {
          IncompleteCarriesNothing(b[k..], Act(Frame(b[0], b[2..k]), None).payload);
        }
      }
    } else {
      EightBytesCarryNothing(b);
    }
  }

  /** A part of any frame that starts at 0 or is shorter than `AnyRoom` carries nothing. */
  lemma SilentPart(d: Datagram, hostsRootAgent: bool, app: Location, p: nat, q: nat)
    requires ValidLocation(app) && |d.payload| < 0x80
    requires |DatagramFrame(d, hostsRootAgent, app)| == 7 + |d.payload| + TRAILER_LEN
    requires p <= q <= |DatagramFrame(d, hostsRootAgent, app)|
    requires if p == 0 then q < |DatagramFrame(d, hostsRootAgent, app)| else q - p < AnyRoom(|d.payload|, p)
    ensures Carried(DatagramFrame(d, hostsRootAgent, app)[p..q]) == []
  {
    var frame, n := DatagramFrame(d, hostsRootAgent, app), |d.payload|;
    var b := frame[p..q];
    CarriedIsAfterNothing(b);
    FrameBytes(d, hostsRootAgent, app);
    if p == 0 {
      PrefixIsSilent(d, hostsRootAgent, app, q);
    } else if p == 1 {
      LengthIsIgnored(n);
      EightBytesCarryNothing(b);
    } else if p == 5 {
      SilentFromFive(n, b);
    } else if p == 6 {
      SilentFromSix(n, b);
    } else {
      SixBytesCarryNothing(b, None);
    }
  }

  /** Position 4 of a broadcast: the length read is 255. */
  lemma SilentFromFour(b: seq<Byte>)
    requires |b| < 0x101 && (|b| >= 2 ==> b[1] == -1)
    ensures CarriedAfter(b, None) == []
  {
    IncompleteCarriesNothing(b, None);
  }

  /** Position 5 of a broadcast: the kind read is -1, and after its `n` bytes at most one is left. */
  lemma SilentFromOnes(n: nat, b: seq<Byte>)
    requires n < 0x80 && |b| < n + 4 && (b != [] ==> b[0] == -1) && (|b| >= 2 ==> b[1] == n)
    ensures CarriedAfter(b, None) == []
  {
    if !Incomplete(b) {
      CarriedSplits(b, None);
      IncompleteCarriesNothing(b[2 + n..], Act(Frame(b[0], b[2..2 + n]), None).payload);
    }
  }

  /** A part of a broadcast's frame that starts at 0 or is shorter than `Room` carries nothing. */
  lemma SilentBroadcast(d: Datagram, hostsRootAgent: bool, app: Location, p: nat, q: nat)
    requires ValidLocation(app) && |d.payload| < 0x80 && Decoded(d.dest) == 0xffff
    requires |DatagramFrame(d, hostsRootAgent, app)| == 7 + |d.payload| + TRAILER_LEN
    requires p <= q <= |DatagramFrame(d, hostsRootAgent, app)| && Silent(|d.payload|, p, q)
    ensures Carried(DatagramFrame(d, hostsRootAgent, app)[p..q]) == []
  {
    var frame, n := DatagramFrame(d, hostsRootAgent, app), |d.payload|;
    FrameBytes(d, hostsRootAgent, app);
    ReadAsBroadcastIff(d.dest);
    CarriedIsAfterNothing(frame[p..q]);
    if p == 4 {
      SilentFromFour(frame[p..q]);
    } else if p == 5 && n >= 5 {
      SilentFromOnes(n, frame[p..q]);
    } else {
      SilentPart(d, hostsRootAgent, app, p, q);
    }
  }

  // ----- Broadcasts that make longer parts carry a datagram -----

  /** Any bytes with the three fixed ones are the frame of some message. */
  predicate IsFrameOf(w: seq<Byte>, n: nat) {
    n < 0x80 && |w| == 7 + n + TRAILER_LEN && w[0] == POBICOS_MSG && w[1] == ToByte(n + 23) && w[6] == n
  }

  function MessageOf(w: seq<Byte>, n: nat): (d: Datagram)
    requires IsFrameOf(w, n)
    ensures |d.payload| == n
  {
    Datagram(w[7..7 + n], CharOf(w[2], w[3]), CharOf(w[4], w[5]))
  }

  function LocationOf(w: seq<Byte>, n: nat): (l: Location)
    requires IsFrameOf(w, n)
    ensures ValidLocation(l)
  {
    Location(CharOf(w[7 + n], w[8 + n]), w[9 + n..17 + n], w[17 + n..])
  }

  lemma PutCharInverts(hi: Byte, lo: Byte)
    ensures PutChar(CharOf(hi, lo)) == [hi, lo]
  {
    CharOfIs(hi, lo);
    ByteOfOctet(hi);
    ByteOfOctet(lo);
    assert CharOf(hi, lo) / 0x100 == ToOctet(hi) && CharOf(hi, lo) % 0x100 == ToOctet(lo);
  }

  lemma WrappedIs(w: seq<Byte>, n: nat)
    requires IsFrameOf(w, n)
    ensures Wrapped(MessageOf(w, n)) == w[2..7 + n]
  {
    PutCharInverts(w[2], w[3]);
    PutCharInverts(w[4], w[5]);
    ByteOfOctet(n);
  }

  lemma TrailerIs(w: seq<Byte>, n: nat)
    requires IsFrameOf(w, n)
    ensures Trailer(true, LocationOf(w, n)) == w[7 + n..]
  {
    PutCharInverts(w[7 + n], w[8 + n]);
    var t := w[7 + n..];
    assert t == [t[0], t[1]] + t[2..10] + t[10..];
    assert t[2..10] == w[9 + n..17 + n] && t[10..] == w[17 + n..];
  }

  lemma EveryFrameIsSent(w: seq<Byte>, n: nat)
    requires IsFrameOf(w, n)
    ensures DatagramFrame(MessageOf(w, n), true, LocationOf(w, n)) == w
  {
    WrappedIs(w, n);
    TrailerIs(w, n);
    assert w == [w[0], w[1]] + w[2..7 + n] + w[7 + n..];
  }

  /** The frame of a broadcast of an `n`-byte payload: zero but for its fixed bytes and two others. */
  function Crafted(n: nat, i: nat, x: Byte, j: nat, y: Byte): (w: seq<Byte>)
    requires n < 0x80
    ensures IsFrameOf(w, n) && w[5] == -1
    ensures forall k :: 2 <= k < |w| && k != 5 && k != 6 ==> w[k] == if k == i then x else if k == j then y else 0
  {
    seq(7 + n + TRAILER_LEN, k =>
      if k == 0 then POBICOS_MSG else if k == 1 then ToByte(n + 23) else if k == 5 then -1 else if k == 6 then n
      else if k == i then x else if k == j then y else 0)
  }

  lemma CraftedIsBroadcast(w: seq<Byte>, n: nat)
    requires IsFrameOf(w, n) && w[5] == -1
    ensures Decoded(MessageOf(w, n).dest) == 0xffff
  {
    CharOfIs(w[4], w[5]);
    assert MessageOf(w, n).dest % 0x100 == 0xff;
  }

  /** Bytes that begin with a frame that carries an empty datagram. */
  lemma Forges(b: seq<Byte>, last: Option<seq<Byte>>)
    requires |b| >= 7 && b[0] == POBICOS_MSG && b[6] == 0 && 5 <= ToOctet(b[1]) <= |b| - 2
    ensures CarriedAfter(b, last) != []
  {
    CarriedSplits(b, last);
    assert b[2..2 + ToOctet(b[1])][4] == 0;
  }

  /** The same after a frame of `l` bytes that the client ignores. */
  lemma ForgesAfter(b: seq<Byte>, l: nat)
    requires l < 0x100 && |b| >= 2 + l + 7 && Ignored(b[0]) && ToOctet(b[1]) == l
    requires b[2 + l] == POBICOS_MSG && b[2 + l + 6] == 0 && 5 <= ToOctet(b[2 + l + 1]) <= |b| - l - 4
    ensures CarriedAfter(b, None) != []
  {
    CarriedSplits(b, None);
    Forges(b[2 + l..], Act(Frame(b[0], b[2..2 + l]), None).payload);
  }

  /** A welcome of 6 bytes, then an empty datagram, which shows the welcome's buffer again. */
  lemma ForgesFromWelcome(b: seq<Byte>)
    requires |b| >= 10 && b[0] == REG_REPLY_WELCOME && b[1] == 6 && b[6] == 0 && b[8] == POBICOS_MSG && b[9] == 0
    ensures CarriedAfter(b, None) != []
  {
    CarriedSplits(b, None);
    var last := Act(Frame(b[0], b[2..8]), None).payload;
    CarriedSplits(b[8..], last);
    assert last.value[4] == 0;
  }

  /** An ignored frame of `l` bytes, then an empty datagram, which shows the ignored frame's buffer. */
  lemma ForgesFromBuffer(b: seq<Byte>, l: nat)
    requires 5 <= l < 0x100 && |b| >= l + 4 && Ignored(b[0]) && ToOctet(b[1]) == l
    requires b[6] == 0 && b[2 + l] == POBICOS_MSG && b[3 + l] == 0
    ensures CarriedAfter(b, None) != []
  {
    CarriedSplits(b, None);
    var last := Act(Frame(b[0], b[2..2 + l]), None).payload;
    assert last.value[4] == 0;
    CarriedSplits(b[2 + l..], last);
  }

  /** A broadcast of length `n` whose bytes from `p` to `q` carry a datagram. */
  function Culprit(n: nat, p: nat, q: nat): (w: seq<Byte>)
    requires n < 0x80 && 1 <= p && p + Room(n, p) <= q <= 7 + n + TRAILER_LEN
    ensures IsFrameOf(w, n) && w[5] == -1
  {
    if p == 1 then Crafted(n, 3, 1, 4, ToByte(q - 5))
    else if p == 5 then Crafted(n, 7 + n, 1, 8 + n, if n >= 5 then 0 else ToByte(q - 9 - n))
    else if p == 6 && n == 4 then Crafted(n, 7, 6, 14, 1)
    else if p == 6 && n != 1 then Crafted(n, 8, 1, 9, ToByte(q - 10))
    else Crafted(n, p, 1, p + 1, ToByte(q - p - 2))
  }

  lemma LengthByteIs(x: nat)
    requires x < 0x100
    ensures ToOctet(ToByte(x)) == x
  {
    OctetOfByte(x);
  }

  lemma CulpritFromOne(n: nat, q: nat)
    requires n < 0x80 && 10 <= q <= 7 + n + TRAILER_LEN
    ensures CarriedAfter(Culprit(n, 1, q)[1..q], None) != []
  {
    LengthIsIgnored(n);
    LengthByteIs(q - 5);
    var w := Culprit(n, 1, q);
    assert w == Crafted(n, 3, 1, 4, ToByte(q - 5));
    assert w[2] == 0 && w[3] == POBICOS_MSG && w[4] == ToByte(q - 5) && w[9] == 0;
    var b := w[1..q];
    assert b[0] == w[1] && b[1] == w[2] && b[2] == w[3] && b[3] == w[4] && b[8] == w[9];
    ForgesAfter(b, 0);
  }

  lemma CulpritFromFive(n: nat, q: nat)
    requires n < 0x80 && 5 + Room(n, 5) <= q <= 7 + n + TRAILER_LEN
    ensures CarriedAfter(Culprit(n, 5, q)[5..q], None) != []
  {
    if n >= 5 {
      var w := Culprit(n, 5, q);
      assert w == Crafted(n, 7 + n, 1, 8 + n, 0);
      assert w[11] == 0 && w[7 + n] == POBICOS_MSG && w[8 + n] == 0;
      var b := w[5..q];
      assert b[0] == w[5] && b[1] == w[6] && b[6] == w[11] && b[2 + n] == w[7 + n] && b[3 + n] == w[8 + n];
      ForgesFromBuffer(b, n);
    } else {
      LengthByteIs(q - 9 - n);
      var w := Culprit(n, 5, q);
      assert w == Crafted(n, 7 + n, 1, 8 + n, ToByte(q - 9 - n));
      assert w[7 + n] == POBICOS_MSG && w[8 + n] == ToByte(q - 9 - n) && w[13 + n] == 0;
      var b := w[5..q];
      assert b[0] == w[5] && b[1] == w[6] && b[2 + n] == w[7 + n] && b[3 + n] == w[8 + n] && b[8 + n] == w[13 + n];
      ForgesAfter(b, n);
    }
  }

  lemma CulpritFromSix(n: nat, q: nat)
    requires n < 0x80 && n != 1 && 6 + Room(n, 6) <= q <= 7 + n + TRAILER_LEN
    ensures CarriedAfter(Culprit(n, 6, q)[6..q], None) != []
  {
    if n == 4 {
      var w := Culprit(n, 6, q);
      assert w == Crafted(n, 7, 6, 14, 1);
      assert w[7] == 6 && w[12] == 0 && w[14] == POBICOS_MSG && w[15] == 0;
      var b := w[6..q];
      assert b[0] == w[6] && b[1] == w[7] && b[6] == w[12] && b[8] == w[14] && b[9] == w[15];
      ForgesFromWelcome(b);
    } else {
      LengthByteIs(q - 10);
      var w := Culprit(n, 6, q);
      assert w == Crafted(n, 8, 1, 9, ToByte(q - 10));
      assert w[7] == 0 && w[8] == POBICOS_MSG && w[9] == ToByte(q - 10) && w[14] == 0;
      var b := w[6..q];
      assert b[0] == w[6] && b[1] == w[7] && b[2] == w[8] && b[3] == w[9] && b[8] == w[14];
      ForgesAfter(b, 0);
    }
  }

  lemma CulpritElsewhere(n: nat, p: nat, q: nat)
    requires n < 0x80 && p >= 2 && p != 4 && p != 5 && !(p == 6 && n != 1)
    requires p + 7 <= q <= 7 + n + TRAILER_LEN
    ensures CarriedAfter(Culprit(n, p, q)[p..q], None) != []
  {
    LengthByteIs(q - p - 2);
    var w := Culprit(n, p, q);
    assert w == Crafted(n, p, 1, p + 1, ToByte(q - p - 2));
    assert w[p] == POBICOS_MSG && w[p + 1] == ToByte(q - p - 2) && w[p + 6] == 0;
    var b := w[p..q];
    assert b[0] == w[p] && b[1] == w[p + 1] && b[6] == w[p + 6];
    Forges(b, None);
  }

  lemma CulpritForges(n: nat, p: nat, q: nat)
    requires n < 0x80 && 1 <= p && p + Room(n, p) <= q <= 7 + n + TRAILER_LEN
    ensures Carried(Culprit(n, p, q)[p..q]) != []
  {
    CarriedIsAfterNothing(Culprit(n, p, q)[p..q]);
    if p == 1 {
      CulpritFromOne(n, q);
    } else if p == 5 {
      CulpritFromFive(n, q);
    } else if p == 6 && n != 1 {
      CulpritFromSix(n, q);
    } else {
      CulpritElsewhere(n, p, q);
    }
  }

  ghost predicate NothingCarried(n: nat, p: nat, q: nat)
    requires p <= q
  {
    forall d: Datagram, h: bool, app: Location ::
      ValidLocation(app) && |d.payload| == n && Decoded(d.dest) == 0xffff ==>
      q <= |DatagramFrame(d, h, app)| && Carried(DatagramFrame(d, h, app)[p..q]) == []
  }

  /** Sharp: the part from `p` to `q` of a broadcast's frame, other than the whole, carries nothing for
      every broadcast of length `n`, every sender and every location, exactly when it starts at 0 or
      is shorter than `Room`. */
  lemma SilentIff(n: nat, p: nat, q: nat)
    requires n < 0x80 && p <= q <= 7 + n + TRAILER_LEN && !(p == 0 && q == 7 + n + TRAILER_LEN)
    ensures Silent(n, p, q) <==> NothingCarried(n, p, q)
  {
    if Silent(n, p, q) {
      forall d: Datagram, h: bool, app: Location |
        ValidLocation(app) && |d.payload| == n && Decoded(d.dest) == 0xffff
        ensures |DatagramFrame(d, h, app)| == 7 + n + TRAILER_LEN && Carried(DatagramFrame(d, h, app)[p..q]) == []
      {
        FrameBytes(d, h, app);
        SilentBroadcast(d, h, app, p, q);
      }
    } else {
      var w := Culprit(n, p, q);
      EveryFrameIsSent(w, n);
      CraftedIsBroadcast(w, n);
      CulpritForges(n, p, q);
      assert Carried(DatagramFrame(MessageOf(w, n), true, LocationOf(w, n))[p..q]) != [];
    }
  }

  // ----- Shares -----

  /** `share` is a part of the frame that carries nothing, whatever the message: cut short, or of a
      broadcast and too short from where it starts. */
  predicate SilentShare(frame: seq<Byte>, share: seq<Byte>) {
    && |frame| >= 7 + TRAILER_LEN
    && exists p, q ::
         && 0 <= p <= q <= |frame| && share == frame[p..q]
         && Silent(|frame| - 7 - TRAILER_LEN, p, q) && (p > 0 ==> frame[5] == -1)
  }

  lemma CutIsSilent(frame: seq<Byte>, share: seq<Byte>)
    requires |frame| >= 7 + TRAILER_LEN && share < frame
    ensures SilentShare(frame, share)
  {
    assert share == frame[0..|share|];
  }

  /** A whole frame carries its datagram: bytes and length always, each address as the decoder reads
      it, which is right exactly when it is sign-safe. A silent part of it carries nothing. */
  lemma FrameCarries(d: Datagram, hostsRootAgent: bool, app: Location, share: seq<Byte>)
    requires ValidLocation(app) && |d.payload| < 0x80
    ensures var frame := DatagramFrame(d, hostsRootAgent, app);
      && Carried(frame) == [Datagram(d.payload, Decoded(d.source), Decoded(d.dest))]
      && (SilentShare(frame, share) ==> Carried(share) == [])
    ensures Decoded(d.source) == d.source <==> SignSafe(d.source)
    ensures Decoded(d.dest) == d.dest <==> SignSafe(d.dest)
  {
    WholeCarries(d, hostsRootAgent, app);
    var frame := DatagramFrame(d, hostsRootAgent, app);
    if SilentShare(frame, share) {
      FrameBytes(d, hostsRootAgent, app);
      var n := |d.payload|;
      var p, q :| 0 <= p <= q <= |frame| && share == frame[p..q] && Silent(n, p, q) && (p > 0 ==> frame[5] == -1);
      if p == 0 {
        SilentPart(d, hostsRootAgent, app, p, q);
      } else {
        ReadAsBroadcastIff(d.dest);
        SilentBroadcast(d, hostsRootAgent, app, p, q);
      }
    }
  }

  lemma WholeCarries(d: Datagram, hostsRootAgent: bool, app: Location)
    requires ValidLocation(app) && |d.payload| < 0x80
    ensures Carried(DatagramFrame(d, hostsRootAgent, app))
         == [Datagram(d.payload, Decoded(d.source), Decoded(d.dest))]
  {
    var f := Message(d, hostsRootAgent, app);
    MessageIsFrame(d, hostsRootAgent, app);
    ArrivesWholeIff(f, Encode(f));
    OwnPayloadIff([f], 0);
    var log := Seen([f]);
    assert log == [Received(POBICOS_MSG, |f.payload|, Some(f.payload))];
    assert HandedOver(log[1..]) == [];
  }
}
