/** Length-prefixed frames over a byte stream that arrives in arbitrary pieces: the readers of the
    client (`PoConnMgrReadTask`) and of the directory (`RequestHandler`). */
module StreamFraming {
  import opened Words
  import opened NetworkPackets

  /** A frame on the wire; one byte holds the payload length. */
  datatype Frame = Frame(kind: Byte, payload: seq<Byte>)

  predicate FitsLengthByte(f: Frame) {
    |f.payload| < 0x100
  }

  predicate AllFit(fs: seq<Frame>) {
    forall i :: 0 <= i < |fs| ==> FitsLengthByte(fs[i])
  }

  function Encode(f: Frame): seq<Byte> {
    [f.kind, ToByte(|f.payload|)] + f.payload
  }

  function EncodeAll(fs: seq<Frame>): seq<Byte> {
    if fs == [] then [] else EncodeAll(fs[..|fs| - 1]) + Encode(fs[|fs| - 1])
  }

  /** The bytes left when no whole frame is at the front. */
  predicate Incomplete(bytes: seq<Byte>) {
    |bytes| < 2 || |bytes| < 2 + ToOctet(bytes[1])
  }

  /** The one way to read bytes as frames and an incomplete rest. */
  function Parse(bytes: seq<Byte>): (r: (seq<Frame>, seq<Byte>))
    ensures Incomplete(r.1)
    decreases |bytes|
  {
    if Incomplete(bytes) then ([], bytes)
    else
      var n := 2 + ToOctet(bytes[1]);
      var (fs, rest) := Parse(bytes[n..]);
      ([Frame(bytes[0], bytes[2..n])] + fs, rest)
  }

  lemma ParseOne(f: Frame, rest: seq<Byte>)
    requires FitsLengthByte(f)
    ensures Parse(Encode(f) + rest) == ([f] + Parse(rest).0, Parse(rest).1)
  {
    var bytes := Encode(f) + rest;
    OctetOfByte(|f.payload|);
    assert bytes[2..2 + |f.payload|] == f.payload;
    assert bytes[2 + |f.payload|..] == rest;
  }

  lemma EncodeAllSplits(f: Frame, fs: seq<Frame>)
    ensures EncodeAll([f] + fs) == Encode(f) + EncodeAll(fs)
  {
    var all := [f] + fs;
    if fs == [] {
      assert all[..0] == [] && EncodeAll(all[..0]) == [];
    } else {
      var front, last := fs[..|fs| - 1], fs[|fs| - 1];
      EncodeAllSplits(f, front);
      assert all[..|all| - 1] == [f] + front && all[|all| - 1] == last;
      var x, y, z := Encode(f), EncodeAll(front), Encode(last);
      assert (x + y) + z == x + (y + z);
    }
  }

  /** Parsing inverts encoding, and what follows the frames is left over. */
  lemma {:induction false} ParseInverts(fs: seq<Frame>, rest: seq<Byte>)
    requires AllFit(fs) && Incomplete(rest)
    ensures Parse(EncodeAll(fs) + rest) == (fs, rest)
    decreases |fs|
  {
    if fs == [] {
      assert EncodeAll(fs) + rest == rest;
    } else {
      var f, tail := fs[0], fs[1..];
      assert fs == [f] + tail;
      EncodeAllSplits(f, tail);
      assert EncodeAll(fs) + rest == Encode(f) + (EncodeAll(tail) + rest);
      ParseOne(f, EncodeAll(tail) + rest);
      ParseInverts(tail, rest);
    }
  }

  /** Bytes that parse as whole frames are the encoding of those frames. */
  lemma {:induction false} WholeFramesEncode(x: seq<Byte>)
    requires Parse(x).1 == []
    ensures AllFit(Parse(x).0) && EncodeAll(Parse(x).0) == x
    decreases |x|
  {
    if !Incomplete(x) {
      var n := 2 + ToOctet(x[1]);
      var f, fs := Frame(x[0], x[2..n]), Parse(x[n..]).0;
      EncodedParts(x[..2], x[2..n]);
      WholeFramesEncode(x[n..]);
      EncodeAllSplits(f, fs);
      assert x == Encode(f) + x[n..];
    }
  }

  lemma FirstFrame(x: seq<Byte>, y: seq<Byte>)
    requires !Incomplete(x)
    ensures var n := 2 + ToOctet(x[1]);
      Parse(x + y) == ([Frame(x[0], x[2..n])] + Parse(x[n..] + y).0, Parse(x[n..] + y).1)
  {
    var n := 2 + ToOctet(x[1]);
    assert (x + y)[2..n] == x[2..n] && (x + y)[n..] == x[n..] + y;
  }

  /** Reading goes on from the incomplete rest of what was read before. */
  lemma {:induction false} ParseContinues(x: seq<Byte>, y: seq<Byte>)
    ensures Parse(x + y).0 == Parse(x).0 + Parse(Parse(x).1 + y).0
    ensures Parse(x + y).1 == Parse(Parse(x).1 + y).1
    decreases |x|
  {
    if Incomplete(x) {
      assert [] + Parse(x + y).0 == Parse(x + y).0;
    } else {
      var n := 2 + ToOctet(x[1]);
      FirstFrame(x, y);
      ParseContinues(x[n..], y);
      JoinedTwice([Frame(x[0], x[2..n])], Parse(x[n..]).0, Parse(Parse(x[n..]).1 + y).0);
    }
  }

  lemma JoinedTwice<T>(a: seq<T>, b: seq<T>, c: seq<T>)
    ensures a + (b + c) == (a + b) + c
  {
  }

  /** A rest whose header has arrived swallows the bytes it misses from whatever comes next. */
  lemma RestSwallows(rest: seq<Byte>, next: seq<Byte>)
    requires Incomplete(rest) && |rest| >= 2
    ensures var missing := 2 + ToOctet(rest[1]) - |rest|;
      && missing > 0
      && (|next| < missing ==> Parse(rest + next) == ([], rest + next))
      && (|next| >= missing ==>
           && Parse(rest + next).0 == [Frame(rest[0], rest[2..] + next[..missing])] + Parse(next[missing..]).0
           && Parse(rest + next).1 == Parse(next[missing..]).1)
  {
    var bytes, missing := rest + next, 2 + ToOctet(rest[1]) - |rest|;
    if |next| >= missing {
      assert bytes[2..|rest| + missing] == rest[2..] + next[..missing];
      assert bytes[|rest| + missing..] == next[missing..];
    }
  }

  /** The reads of a schedule that find at least one byte, if any is left. */
  function Arrivals(pieces: seq<nat>): nat {
    if pieces == [] then 0 else (if pieces[0] > 0 then 1 else 0) + Arrivals(pieces[1..])
  }

  /** Every read that finds something counts once. */
  lemma {:induction false} ArrivalsAppend(pieces: seq<nat>, n: nat)
    ensures Arrivals([]) == 0 && Arrivals(pieces + [n]) == Arrivals(pieces) + if n > 0 then 1 else 0
    decreases |pieces|
  {
    if pieces == [] {
      assert pieces + [n] == [n] && [n][1..] == [];
    } else {
      ArrivalsAppend(pieces[1..], n);
      assert (pieces + [n])[1..] == pieces[1..] + [n];
    }
  }

  datatype Progress = Progress(incoming: seq<Byte>, pieces: seq<nat>, consumed: seq<Byte>)

  /** From `p` to `q` exactly `bytes` were read, and at least one per read that could find any. */
  predicate Moved(p: Progress, q: Progress, bytes: seq<Byte>) {
    && q.consumed == p.consumed + bytes
    && p.incoming == bytes + q.incoming
    && |q.pieces| <= |p.pieces|
    && (|bytes| + Arrivals(q.pieces) >= Arrivals(p.pieces) || q.incoming == [])
  }

  lemma MovedTwice(p: Progress, m: Progress, q: Progress, x: seq<Byte>, y: seq<Byte>)
    requires Moved(p, m, x) && Moved(m, q, y)
    ensures Moved(p, q, x + y)
  {
    assert x + (y + q.incoming) == (x + y) + q.incoming;
    assert p.consumed + x + y == p.consumed + (x + y);
  }

  /** A connection: the bytes still to arrive, and how many of them successive reads find. After
      the last piece the peer has closed it. */
  class Stream {
    var incoming: seq<Byte>
    var pieces: seq<nat>
    ghost var consumed: seq<Byte>

    constructor (bytes: seq<Byte>, sizes: seq<nat>)
      ensures incoming == bytes && pieces == sizes && consumed == []
    {
      incoming, pieces, consumed := bytes, sizes, [];
    }

    ghost function View(): Progress
      reads this
    {
      Progress(incoming, pieces, consumed)
    }

    /** A read into a buffer with `room` bytes left: 0 when there is no room, -1 at the end, else
        what it found, perhaps nothing. */
    method Read(room: nat) returns (ret: int, bytes: seq<Byte>)
      modifies this
      ensures Moved(old(View()), View(), bytes) && |bytes| <= room
      ensures if ret == -1 then bytes == [] && pieces == [] else ret == |bytes|
      ensures ret == -1 <==> old(pieces) == [] && room > 0
      ensures room > 0 && ret != -1 ==> |pieces| < |old(pieces)|
    {
      if room == 0 {
        return 0, [];
      }
      if pieces == [] {
        return -1, [];
      }
      var n := pieces[0];
      n := if n <= room then n else room;
      n := if n <= |incoming| then n else |incoming|;
      pieces := pieces[1..];
      bytes := incoming[..n];
      incoming := incoming[n..];
      consumed := consumed + bytes;
      ret := n;
    }

    /** The accumulating loop of both readers: repeated reads until the buffer holds `n` bytes. */
    method Fill(buf: seq<Byte>, n: nat) returns (filled: seq<Byte>, open: bool, ghost more: seq<Byte>)
      requires |buf| <= n
      modifies this
      ensures filled == buf + more && Moved(old(View()), View(), more)
      ensures |filled| <= n && (open <==> |filled| == n) && (!open ==> pieces == [])
    {
      filled, more := buf, [];
      while |filled| < n
        invariant filled == buf + more && |filled| <= n
        invariant Moved(old(View()), View(), more)
        decreases |pieces|
      {
        ghost var here := View();
        var ret, bytes := Read(n - |filled|);
        MovedTwice(old(View()), here, View(), more, bytes);
        filled := filled + bytes;
        more := more + bytes;
        if ret == -1 {
          return filled, false, more;
        }
      }
      open := true;
    }
  }

  /** What a pass over the stream amounts to. */
  datatype Outcome = Nothing | Closed | Got(frame: Frame)

  predicate IsOutcome(outcome: Outcome, taken: seq<Byte>) {
    match outcome
    case Nothing => taken == []
    case Closed => Incomplete(taken)
    case Got(f) => FitsLengthByte(f) && taken == Encode(f)
  }

  lemma EncodedParts(header: seq<Byte>, body: seq<Byte>)
    requires |header| == 2 && |body| == ToOctet(header[1])
    ensures FitsLengthByte(Frame(header[0], body)) && header + body == Encode(Frame(header[0], body))
  {
    ByteOfOctet(header[1]);
  }

  /** The writer's bytes are one frame of the stream, exactly when its length byte is right. */
  lemma FramedIsOneFrame(msg: NetworkMsg, hostsRootAgent: bool, app: Location)
    requires ValidLocation(app)
    ensures var f := Frame(msg.kind, msg.payload + TrailerOf(msg.kind, hostsRootAgent, app));
      && Framed(msg, hostsRootAgent, app) == Encode(f)
      && (Parse(Encode(f)) == ([f], []) <==> FitsLengthByte(f))
  {
    var f := Frame(msg.kind, msg.payload + TrailerOf(msg.kind, hostsRootAgent, app));
    assert Encode(f) + [] == Encode(f);
    if FitsLengthByte(f) {
      ParseOne(f, []);
      assert Parse([]) == ([], []) && [f] + [] == [f];
    } else {
      ParsedFramesFit(Encode(f));
    }
  }

  lemma {:induction false} ParsedFramesFit(bytes: seq<Byte>)
    ensures AllFit(Parse(bytes).0)
    decreases |bytes|
  {
    if !Incomplete(bytes) { ParsedFramesFit(bytes[2 + ToOctet(bytes[1])..]); }
  }

  // ----- The client's reader -----

  /** What the client acts on; `payload` is the last buffer it allocated, if any. */
  datatype Received = Received(kind: Byte, len: nat, payload: Option<seq<Byte>>)

  function Act(f: Frame, last: Option<seq<Byte>>): Received {
    Received(f.kind, |f.payload|, if f.payload == [] then last else Some(f.payload))
  }

  /** An empty payload allocates nothing, so the client sees the previous frame's buffer. */
  function Seen(fs: seq<Frame>): (log: seq<Received>)
    ensures |log| == |fs|
  {
    if fs == [] then []
    else
      var log := Seen(fs[..|fs| - 1]);
      log + [Act(fs[|fs| - 1], if log == [] then None else log[|log| - 1].payload)]
  }

  /** The client sees a frame's own payload exactly when it is not empty. */
  lemma {:induction false} OwnPayloadIff(fs: seq<Frame>, i: nat)
    requires i < |fs|
    ensures Seen(fs)[i].kind == fs[i].kind && Seen(fs)[i].len == |fs[i].payload|
    ensures Seen(fs)[i].payload == Some(fs[i].payload) <==> fs[i].payload != []
    decreases |fs|
  {
    var front := fs[..|fs| - 1];
    if i < |front| {
      OwnPayloadIff(front, i);
      assert front[i] == fs[i];
    } else if front != [] {
      NeverAnEmptyBuffer(front, |front| - 1);
    }
  }

  lemma {:induction false} NeverAnEmptyBuffer(fs: seq<Frame>, i: nat)
    requires i < |fs|
    ensures Seen(fs)[i].payload != Some([])
    decreases |fs|
  {
    var front := fs[..|fs| - 1];
    if i < |front| {
      NeverAnEmptyBuffer(front, i);
    } else if front != [] {
      NeverAnEmptyBuffer(front, |front| - 1);
    }
  }

  /** Acting on a frame throws: a welcome or a datagram with no buffer, or a welcome too short. */
  predicate Throws(r: Received) {
    || (r.kind == POBICOS_MSG && r.payload.None?)
    || (r.kind == REG_REPLY_WELCOME && (r.payload.None? || |r.payload.value| < 6))
  }

  /** The reader thread ends with a frame that rejects its registration or throws. */
  predicate Ends(r: Received) {
    r.kind == REG_REPLY_FAIL || Throws(r)
  }

  /** Which frames end the reader: a refusal, a datagram or welcome before any payload has arrived, and a
      welcome that shows fewer than six bytes. */
  lemma EndsIff(f: Frame, last: Option<seq<Byte>>)
    ensures var p := if f.payload == [] then last else Some(f.payload);
      Ends(Act(f, last)) <==>
        f.kind == 3 || (f.kind == 1 && p.None?) || (f.kind == 4 && (p.None? || |p.value| < 6))
  {
  }

  predicate EndsOnlyLast(fs: seq<Frame>) {
    forall i :: 0 <= i < |fs| - 1 ==> !Ends(Seen(fs)[i])
  }

  predicate Ended(fs: seq<Frame>) {
    fs != [] && Ends(Seen(fs)[|fs| - 1])
  }

  /** The state of a reader that has taken exactly the frames `fs`. */
  predicate HasRead(fs: seq<Frame>, consumed: seq<Byte>, log: seq<Received>, payload: Option<seq<Byte>>) {
    && AllFit(fs) && consumed == EncodeAll(fs) && log == Seen(fs) && EndsOnlyLast(fs)
    && payload == if fs == [] then None else Seen(fs)[|fs| - 1].payload
  }

  lemma ReadsOneMore(fs: seq<Frame>, f: Frame, consumed: seq<Byte>, log: seq<Received>, payload: Option<seq<Byte>>)
    requires HasRead(fs, consumed, log, payload) && !Ended(fs) && FitsLengthByte(f)
    ensures HasRead(fs + [f], consumed + Encode(f), log + [Act(f, payload)], Act(f, payload).payload)
    ensures Ended(fs + [f]) <==> Ends(Act(f, payload))
  {
    assert (fs + [f])[..|fs|] == fs;
  }

  lemma ReadIsParsed(fs: seq<Frame>, rest: seq<Byte>, consumed: seq<Byte>, log: seq<Received>,
                     payload: Option<seq<Byte>>)
    requires HasRead(fs, consumed, log, payload) && Incomplete(rest)
    ensures Parse(consumed + rest) == (fs, rest)
  {
    ParseInverts(fs, rest);
  }

  class ReadTask {
    var payload: Option<seq<Byte>>   // the buffer of the last non-empty payload
    var log: seq<Received>

    constructor ()
      ensures payload == None && log == []
    {
      payload, log := None, [];
    }

    /** One pass of the loop in `run`: nothing yet, the end of the stream, or one frame acted on. */
    method ReadFrame(s: Stream) returns (outcome: Outcome, ghost taken: seq<Byte>)
      requires s.pieces != []
      modifies this, s
      ensures Moved(old(s.View()), s.View(), taken) && |s.pieces| < |old(s.pieces)|
      ensures IsOutcome(outcome, taken) && (outcome == Closed ==> s.pieces == [])
      ensures !outcome.Got? ==> log == old(log) && payload == old(payload)
      ensures outcome.Got? ==>
        && log == old(log) + [Act(outcome.frame, old(payload))]
        && payload == Act(outcome.frame, old(payload)).payload
    {
      var ret, header := s.Read(HEADER_LEN);
      taken := header;
      if ret == 0 {
        return Nothing, taken;
      }
      ghost var here := s.View();
      var open;
      ghost var more;
      header, open, more := s.Fill(header, HEADER_LEN);
      MovedTwice(old(s.View()), here, s.View(), taken, more);
      taken := header;
      if !open {
        return Closed, taken;
      }
      here := s.View();
      outcome, more := ReadRest(s, header);
      MovedTwice(old(s.View()), here, s.View(), taken, more);
      taken := header + more;
    }

    /** What follows a header: its payload, if it has one, and acting on the frame. */
    method ReadRest(s: Stream, header: seq<Byte>) returns (outcome: Outcome, ghost more: seq<Byte>)
      requires |header| == HEADER_LEN
      modifies this, s
      ensures Moved(old(s.View()), s.View(), more) && !outcome.Nothing?
      ensures IsOutcome(outcome, header + more) && (outcome == Closed ==> s.pieces == [])
      ensures outcome == Closed ==> log == old(log) && payload == old(payload)
      ensures outcome.Got? ==>
        && log == old(log) + [Act(outcome.frame, old(payload))]
        && payload == Act(outcome.frame, old(payload)).payload
    {
      var len := ToOctet(header[1]);
      if len == 0 {
        EncodedParts(header, []);
        log := log + [Received(header[0], len, payload)];
        return Got(Frame(header[0], [])), [];
      }
      var body, open;
      body, open, more := s.Fill([], len);
      if !open {
        return Closed, more;
      }
      EncodedParts(header, body);
      payload := Some(body);
      log := log + [Received(header[0], len, payload)];
      return Got(Frame(header[0], body)), more;
    }

    /** The thread's loop. Whatever the pieces, the log is what the parsed frames show, every frame
        that arrived whole is in it, and the thread stops early only at a frame that ends it. */
    method Run(s: Stream) returns (ended: bool)
      requires payload == None && log == [] && s.consumed == []
      modifies this, s
      ensures Moved(old(s.View()), s.View(), s.consumed)
      ensures var (fs, rest) := Parse(s.consumed);
        && log == Seen(fs) && EndsOnlyLast(fs)
        && (ended <==> Ended(fs)) && (ended ==> rest == [])
        && (!ended ==> s.pieces == [])
    {
      ghost var fs: seq<Frame> := [];
      ended := false;
      while s.pieces != [] && !ended
        invariant HasRead(fs, s.consumed, log, payload)
        invariant Moved(old(s.View()), s.View(), s.consumed)
        invariant ended <==> Ended(fs)
        decreases |s.pieces|
      {
        ghost var here, before, last := s.View(), log, payload;
        var outcome, taken := ReadFrame(s);
        MovedTwice(old(s.View()), here, s.View(), here.consumed, taken);
        if outcome == Closed {
          ReadIsParsed(fs, taken, here.consumed, before, last);
          return;
        }
        if outcome.Got? {
          ReadsOneMore(fs, outcome.frame, here.consumed, before, last);
          fs := fs + [outcome.frame];
          ended := Ends(log[|log| - 1]);
        } else {
          assert here.consumed + [] == here.consumed;
        }
      }
      ReadIsParsed(fs, [], s.consumed, log, payload);
      assert s.consumed + [] == s.consumed;
    }
  }

  /** A frame with a payload of its own that the client acts on without ending. */
  predicate Plain(f: Frame) {
    f.payload != [] && f.kind != REG_REPLY_FAIL && (f.kind == REG_REPLY_WELCOME ==> |f.payload| >= 6)
  }

  /** Independence of fragmentation on the client: plain frames, cut into reads in any way (reads
      that find nothing included), are acted on exactly once each, in order, with their own
      payloads, if the connection stays open long enough. */
  method ClientReceives(fs: seq<Frame>, pieces: seq<nat>) returns (log: seq<Received>)
    requires AllFit(fs) && forall i :: 0 <= i < |fs| ==> Plain(fs[i])
    requires Arrivals(pieces) >= |EncodeAll(fs)|
    ensures |log| == |fs|
    ensures forall i :: 0 <= i < |fs| ==> log[i] == Received(fs[i].kind, |fs[i].payload|, Some(fs[i].payload))
  {
    var s := new Stream(EncodeAll(fs), pieces);
    var task := new ReadTask();
    var ended := task.Run(s);
    log := task.log;
    NothingEnds(fs, s.consumed, s.incoming);
    assert s.incoming == [] && s.consumed == EncodeAll(fs);
    ShowsOwnPayloads(fs);
  }

  lemma ShowsOwnPayloads(fs: seq<Frame>)
    requires AllFit(fs) && forall i :: 0 <= i < |fs| ==> fs[i].payload != []
    ensures Parse(EncodeAll(fs)).0 == fs
    ensures forall i :: 0 <= i < |fs| ==> Seen(fs)[i] == Received(fs[i].kind, |fs[i].payload|, Some(fs[i].payload))
  {
    ParseInverts(fs, []);
    assert EncodeAll(fs) + [] == EncodeAll(fs);
    forall i | 0 <= i < |fs|
      ensures Seen(fs)[i] == Received(fs[i].kind, |fs[i].payload|, Some(fs[i].payload))
    {
      OwnPayloadIff(fs, i);
    }
  }

  /** A reader of plain frames never ends before the stream does. */
  lemma NothingEnds(fs: seq<Frame>, consumed: seq<Byte>, left: seq<Byte>)
    requires AllFit(fs) && forall i :: 0 <= i < |fs| ==> Plain(fs[i])
    requires consumed + left == EncodeAll(fs)
    ensures !(Ended(Parse(consumed).0) && Parse(consumed).1 == [])
  {
    if Parse(consumed).1 == [] {
      var gs := Parse(consumed).0;
      WholeFramesEncode(consumed);
      PrefixOfFrames(fs, gs, left);
      if gs != [] {
        assert gs[|gs| - 1] == fs[|gs| - 1];
        OwnPayloadIff(gs, |gs| - 1);
      }
    }
  }

  lemma {:induction false} PrefixOfFrames(fs: seq<Frame>, gs: seq<Frame>, left: seq<Byte>)
    requires AllFit(fs) && AllFit(gs) && EncodeAll(gs) + left == EncodeAll(fs)
    ensures gs <= fs
    decreases |gs|
  {
    if gs != [] {
      var g, hs := gs[0], gs[1..];
      assert gs == [g] + hs;
      EncodeAllSplits(g, hs);
      var bytes := EncodeAll(fs);
      assert bytes == Encode(g) + (EncodeAll(hs) + left);
      assert |bytes| >= 2;
      var f, tail := fs[0], fs[1..];
      assert fs == [f] + tail;
      EncodeAllSplits(f, tail);
      SameFirstFrame(f, EncodeAll(tail), g, EncodeAll(hs) + left);
      PrefixOfFrames(tail, hs, left);
    }
  }

  lemma SameFirstFrame(f: Frame, x: seq<Byte>, g: Frame, y: seq<Byte>)
    requires FitsLengthByte(f) && FitsLengthByte(g) && Encode(f) + x == Encode(g) + y
    ensures f == g && x == y
  {
    var bytes := Encode(f) + x;
    assert bytes[0] == f.kind && bytes[0] == g.kind;
    assert bytes[1] == ToByte(|f.payload|) && bytes[1] == ToByte(|g.payload|);
    OctetOfByte(|f.payload|);
    OctetOfByte(|g.payload|);
    assert bytes[2..2 + |f.payload|] == f.payload && bytes[2..2 + |f.payload|] == g.payload;
    assert bytes[2 + |f.payload|..] == x && bytes[2 + |f.payload|..] == y;
  }

  // ----- The directory's reader -----

  /** One run of a request handler's `read`. */
  method ReadRequest(s: Stream) returns (outcome: Outcome, ghost taken: seq<Byte>)
    modifies s
    ensures Moved(old(s.View()), s.View(), taken)
    ensures old(s.pieces) != [] ==> |s.pieces| < |old(s.pieces)|
    ensures IsOutcome(outcome, taken) && (outcome == Closed ==> s.pieces == [])
  {
    var ret, header := s.Read(HEADER_LEN);
    taken := header;
    if ret == 0 {
      return Nothing, taken;
    }
    if ret == -1 {
      return Closed, taken;
    }
    ghost var here := s.View();
    var open;
    ghost var more;
    header, open, more := s.Fill(header, HEADER_LEN);
    MovedTwice(old(s.View()), here, s.View(), taken, more);
    taken := header;
    if !open {
      return Closed, taken;
    }
    here := s.View();
    var payload, whole;
    payload, whole, more := ReadPayload(s, header);
    MovedTwice(old(s.View()), here, s.View(), taken, more);
    taken := header + more;
    if !whole {
      return Closed, taken;
    }
    EncodedParts(header, payload);
    return Got(Frame(header[0], payload)), taken;
  }

  /** The payload is always a fresh buffer; the read into the full header before it takes nothing. */
  method ReadPayload(s: Stream, header: seq<Byte>) returns (payload: seq<Byte>, whole: bool, ghost more: seq<Byte>)
    requires |header| == HEADER_LEN
    modifies s
    ensures payload == more && Moved(old(s.View()), s.View(), more)
    ensures |payload| <= ToOctet(header[1]) && (whole <==> |payload| == ToOctet(header[1]))
    ensures !whole ==> s.pieces == []
  {
    var ret, none := s.Read(HEADER_LEN - |header|);
    ghost var here := s.View();
    payload, whole, more := s.Fill([], ToOctet(header[1]));
    MovedTwice(old(s.View()), here, s.View(), none, more);
  }

  /** The reactor re-running one connection's handler until the peer closes it. */
  method ServeRequests(s: Stream) returns (requests: seq<Frame>)
    requires s.consumed == []
    modifies s
    ensures Moved(old(s.View()), s.View(), s.consumed) && s.pieces == []
    ensures requests == Parse(s.consumed).0
  {
    requests := [];
    while s.pieces != []
      invariant AllFit(requests) && s.consumed == EncodeAll(requests)
      invariant Moved(old(s.View()), s.View(), s.consumed)
      decreases |s.pieces|
    {
      ghost var here := s.View();
      var outcome, taken := ReadRequest(s);
      MovedTwice(old(s.View()), here, s.View(), here.consumed, taken);
      if outcome == Closed {
        ParseInverts(requests, taken);
        return;
      }
      if outcome.Got? {
        assert (requests + [outcome.frame])[..|requests|] == requests;
        requests := requests + [outcome.frame];
      } else {
        assert here.consumed + [] == here.consumed;
      }
    }
    ParseInverts(requests, []);
    assert EncodeAll(requests) + [] == EncodeAll(requests);
  }

  /** Independence of fragmentation on the directory, empty payloads included. */
  method DirectoryReceives(fs: seq<Frame>, pieces: seq<nat>) returns (requests: seq<Frame>)
    requires AllFit(fs) && Arrivals(pieces) >= |EncodeAll(fs)|
    ensures requests == fs
  {
    var s := new Stream(EncodeAll(fs), pieces);
    requests := ServeRequests(s);
    ParseInverts(fs, []);
    assert s.incoming == [] && s.consumed == EncodeAll(fs) + [];
  }
}
