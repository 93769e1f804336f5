/** How the directory passes a datagram on: to the node of its destination address, and for the
    broadcast address to all other nodes, always out of one shared buffer. */
module Forwarding {
  import opened Words
  import opened Serialization
  import opened NetworkPackets
  import opened DirectoryModel

  const BROADCAST: Char16 := 0xffff

  /** Whether a position lies within a location's radius. */
  type Near = (seq<Byte>, seq<Byte>, Location) -> bool

  /** A `double` equal to 0.0, of either sign. */
  predicate IsZero(d: seq<Byte>) {
    |d| == 8 && (d[0] == 0 || d[0] == -0x80) && forall i :: 1 <= i < 8 ==> d[i] == 0
  }

  function LocationAt(frame: seq<Byte>): (l: Location)
    requires |frame| >= TRAILER_LEN
    ensures ValidLocation(l)
  {
    Location(RadiusAt(frame), LatAt(frame), LonAt(frame))
  }

  /** The directory reads from a datagram's frame the location that its writer put there. */
  lemma WriterLocationIsRead(d: Datagram, hostsRootAgent: bool, app: Location)
    requires ValidLocation(app)
    ensures |DatagramFrame(d, hostsRootAgent, app)| >= TRAILER_LEN
    ensures LocationAt(DatagramFrame(d, hostsRootAgent, app))
         == if hostsRootAgent then app else Location(0, Zeros(8), Zeros(8))
  {
    DirectoryReadsTheCoordinates(d, hostsRootAgent, app);
    DirectoryReadsTheRadius(d, hostsRootAgent, app);
  }

  /** The eight bytes of 0.0 and of -0.0. */
  lemma IsZeroIff(d: seq<Byte>)
    requires |d| == 8
    ensures IsZero(d) <==> d == Zeros(8) || d == [-0x80] + Zeros(7)
  {
    if IsZero(d) { assert d == [d[0]] + d[1..] && d[1..] == Zeros(7) && Zeros(8) == [0] + Zeros(7); }
  }

  /** A location that restricts where a datagram may go. */
  predicate IsSet(l: Location) {
    l.radius != 0 && !IsZero(l.lat) && !IsZero(l.lon)
  }

  /** The location a handler remembers: the last one set by a datagram it processed. */
  function Remember(app: Location, frame: seq<Byte>): (l: Location)
    requires |frame| >= TRAILER_LEN
  {
    if IsSet(LocationAt(frame)) then LocationAt(frame) else app
  }

  /** The test before each write, with the handler's remembered location. */
  predicate Passes(node: Node, app: Location, frame: seq<Byte>, near: Near)
    requires |frame| >= TRAILER_LEN
  {
    if IsSet(app) && IsSet(LocationAt(frame)) then near(node.lat, node.lon, app) else true
  }

  /** A handler's memory never matters: a datagram goes by its own location or by none. */
  lemma OwnLocationDecides(node: Node, app: Location, frame: seq<Byte>, near: Near)
    requires |frame| >= TRAILER_LEN
    ensures Passes(node, Remember(app, frame), frame, near)
      <==> !IsSet(LocationAt(frame)) || near(node.lat, node.lon, LocationAt(frame))
  {
  }

  /** The test of the broadcast loop: not the sender's node, and the location allows it. */
  predicate IsOther(node: Node, from: nat, frame: seq<Byte>, near: Near)
    requires |frame| >= TRAILER_LEN
  {
    node.sock != from && Passes(node, LocationAt(frame), frame, near)
  }

  /** The nodes a broadcast is written to, by position in the registry. */
  function BroadcastTargets(ns: seq<Node>, n: nat, from: nat, frame: seq<Byte>, near: Near): (ts: seq<nat>)
    requires n <= |ns| && |frame| >= TRAILER_LEN
    ensures forall i :: 0 <= i < |ts| ==> ts[i] < n
  {
    if n == 0 then []
    else
      var ts := BroadcastTargets(ns, n - 1, from, frame, near);
      if IsOther(ns[n - 1], from, frame, near) then ts + [n - 1] else ts
  }

  /** The loop's part of a broadcast: the nodes that are not the sender's and pass. */
  lemma {:induction false} LoopReaches(ns: seq<Node>, n: nat, from: nat, frame: seq<Byte>, near: Near)
    requires n <= |ns| && |frame| >= TRAILER_LEN
    ensures forall k :: 0 <= k < n ==>
      (k in BroadcastTargets(ns, n, from, frame, near) <==> IsOther(ns[k], from, frame, near))
  {
    if n > 0 {
      LoopReaches(ns, n - 1, from, frame, near);
      var ts := BroadcastTargets(ns, n - 1, from, frame, near);
      assert n - 1 !in ts;
      assert forall k :: k in ts + [n - 1] <==> k in ts || k == n - 1;
    }
  }

  predicate Increasing(ts: seq<nat>) {
    forall i, j :: 0 <= i < j < |ts| ==> ts[i] < ts[j]
  }

  lemma AppendIncreases(ts: seq<nat>, t: nat)
    requires Increasing(ts) && forall i :: 0 <= i < |ts| ==> ts[i] < t
    ensures Increasing(ts + [t])
  {
  }

  lemma {:induction false} LoopInOrder(ns: seq<Node>, n: nat, from: nat, frame: seq<Byte>, near: Near)
    requires n <= |ns| && |frame| >= TRAILER_LEN
    ensures Increasing(BroadcastTargets(ns, n, from, frame, near))
  {
    if n > 0 {
      LoopInOrder(ns, n - 1, from, frame, near);
      AppendIncreases(BroadcastTargets(ns, n - 1, from, frame, near), n - 1);
    }
  }

  function Destination(frame: seq<Byte>): Char16
    requires |frame| >= TRAILER_LEN
  {
    CharAt(frame[4], frame[5])
  }

  function Targets(ns: seq<Node>, from: nat, frame: seq<Byte>, near: Near): (ts: seq<nat>)
    requires |frame| >= TRAILER_LEN
    ensures forall i :: 0 <= i < |ts| ==> ts[i] < |ns|
  {
    var k := FindAddr(ns, Destination(frame), 0);
    (if k < |ns| && Passes(ns[k], LocationAt(frame), frame, near) then [k] else [])
    + (if Destination(frame) == BROADCAST then BroadcastTargets(ns, |ns|, from, frame, near) else [])
  }

  /** What one write moves: at most what the socket accepts, from where the buffer stands. */
  function Taken(len: nat, pos: nat, accept: nat): nat {
    if pos >= len then 0 else if accept <= len - pos then accept else len - pos
  }

  /** What each target gets: the buffer's position is never set back between writes. */
  function Pieces(frame: seq<Byte>, pos: nat, accepts: seq<nat>): (ps: seq<seq<Byte>>)
    requires pos <= |frame|
    ensures |ps| == |accepts|
    decreases |accepts|
  {
    if accepts == [] then []
    else
      var n := Taken(|frame|, pos, accepts[0]);
      [frame[pos..pos + n]] + Pieces(frame, pos + n, accepts[1..])
  }

  function Joined(ps: seq<seq<Byte>>): seq<Byte> {
    if ps == [] then [] else ps[0] + Joined(ps[1..])
  }

  /** Conservation: all targets together get each byte of the frame at most once, in order. */
  lemma {:induction false} OneBufferForAll(frame: seq<Byte>, pos: nat, accepts: seq<nat>)
    requires pos <= |frame|
    ensures Joined(Pieces(frame, pos, accepts)) <= frame[pos..]
    decreases |accepts|
  {
    if accepts != [] {
      var n := Taken(|frame|, pos, accepts[0]);
      OneBufferForAll(frame, pos + n, accepts[1..]);
      assert frame[pos..] == frame[pos..pos + n] + frame[pos + n..];
      assert Pieces(frame, pos, accepts)[1..] == Pieces(frame, pos + n, accepts[1..]);
    }
  }

  lemma {:induction false} SumFromTheFront(x: nat, xs: seq<nat>)
    ensures Sum([x] + xs) == x + Sum(xs)
  {
    var all := [x] + xs;
    if xs == [] {
      assert all[..0] == [];
    } else {
      SumFromTheFront(x, xs[..|xs| - 1]);
      assert all[..|all| - 1] == [x] + xs[..|xs| - 1];
    }
  }

  /** Where the buffer stands before the i-th write. */
  function Position(len: nat, pos: nat, accepts: seq<nat>, i: nat): nat
    requires i <= |accepts|
  {
    var sum := pos + Sum(accepts[..i]);
    if sum <= len then sum else len
  }

  lemma PositionAfterOne(len: nat, pos: nat, accepts: seq<nat>, i: nat)
    requires pos <= len && i < |accepts|
    ensures Position(len, pos, accepts, i + 1)
         == Position(len, pos + Taken(len, pos, accepts[0]), accepts[1..], i)
  {
    SumFromTheFront(accepts[0], accepts[1..][..i]);
    assert accepts[..i + 1] == [accepts[0]] + accepts[1..][..i];
  }

  /** In closed form: the i-th write moves the bytes between two positions of the buffer. */
  lemma {:induction false} PieceIs(frame: seq<Byte>, pos: nat, accepts: seq<nat>, i: nat)
    requires pos <= |frame| && i < |accepts|
    ensures Position(|frame|, pos, accepts, i) <= Position(|frame|, pos, accepts, i + 1)
    ensures Pieces(frame, pos, accepts)[i]
         == frame[Position(|frame|, pos, accepts, i)..Position(|frame|, pos, accepts, i + 1)]
    decreases |accepts|
  {
    PositionAfterOne(|frame|, pos, accepts, i);
    if i == 0 {
      assert accepts[..0] == [] && accepts[1..][..0] == [];
    } else {
      PositionAfterOne(|frame|, pos, accepts, i - 1);
      PieceIs(frame, pos + Taken(|frame|, pos, accepts[0]), accepts[1..], i - 1);
    }
  }

  lemma LastOfSum(accepts: seq<nat>, i: nat)
    requires i < |accepts|
    ensures Sum(accepts[..i + 1]) == Sum(accepts[..i]) + accepts[i]
  {
    assert accepts[..i + 1][..i] == accepts[..i];
  }

  lemma {:induction false} NothingTakenIff(accepts: seq<nat>, i: nat)
    requires i <= |accepts|
    ensures Sum(accepts[..i]) == 0 <==> forall j :: 0 <= j < i ==> accepts[j] == 0
  {
    if i > 0 {
      NothingTakenIff(accepts, i - 1);
      LastOfSum(accepts, i - 1);
    }
  }

  /** A target is served whole exactly when its socket takes the whole frame at once and every
      earlier one took nothing. */
  lemma ServedWholeIff(frame: seq<Byte>, accepts: seq<nat>, i: nat)
    requires frame != [] && i < |accepts|
    ensures Pieces(frame, 0, accepts)[i] == frame
      <==> accepts[i] >= |frame| && forall j :: 0 <= j < i ==> accepts[j] == 0
  {
    PieceIs(frame, 0, accepts, i);
    LastOfSum(accepts, i);
    NothingTakenIff(accepts, i);
    WholeSliceIff(frame, Position(|frame|, 0, accepts, i), Position(|frame|, 0, accepts, i + 1));
  }

  lemma WholeSliceIff(frame: seq<Byte>, from: nat, to: nat)
    requires frame != [] && from <= to <= |frame|
    ensures frame[from..to] == frame <==> from == 0 && to == |frame|
  {
    assert |frame[from..to]| == to - from;
  }

  /** Every target is served whole exactly when there is none, or just one that takes it at once. */
  lemma EveryTargetServedIff(frame: seq<Byte>, accepts: seq<nat>)
    requires frame != []
    ensures (forall i :: 0 <= i < |accepts| ==> Pieces(frame, 0, accepts)[i] == frame)
      <==> accepts == [] || (|accepts| == 1 && accepts[0] >= |frame|)
  {
    if accepts != [] {
      ServedWholeIff(frame, accepts, 0);
      if |accepts| > 1 { ServedWholeIff(frame, accepts, 1); }
    }
  }

  /** A frame of an unknown kind makes the handler write its last datagram again from where the
      buffer stands: together the writes move what one longer list of writes would. */
  lemma {:induction false} RewritingResumes(frame: seq<Byte>, pos: nat, accepts: seq<nat>, more: seq<nat>)
    requires pos <= |frame|
    ensures Pieces(frame, pos, accepts + more)
         == Pieces(frame, pos, accepts) + Pieces(frame, Position(|frame|, pos, accepts, |accepts|), more)
    decreases |accepts|
  {
    if accepts == [] {
      assert accepts + more == more;
    } else {
      var x, rest := accepts[0], accepts[1..];
      var n := Taken(|frame|, pos, x);
      RewritingResumes(frame, pos + n, rest, more);
      PositionAfterOne(|frame|, pos, accepts, |rest|);
      assert accepts == [x] + rest && accepts + more == [x] + (rest + more);
      OnePieceMore(frame, pos, x, rest);
      OnePieceMore(frame, pos, x, rest + more);
      JoinedAgain([frame[pos..pos + n]], Pieces(frame, pos + n, rest),
                  Pieces(frame, Position(|frame|, pos + n, rest, |rest|), more));
    }
  }

  lemma JoinedAgain(a: seq<seq<Byte>>, b: seq<seq<Byte>>, c: seq<seq<Byte>>)
    ensures a + (b + c) == (a + b) + c
  {
  }

  lemma OnePieceMore(frame: seq<Byte>, pos: nat, x: nat, rest: seq<nat>)
    requires pos <= |frame|
    ensures var n := Taken(|frame|, pos, x);
      Pieces(frame, pos, [x] + rest) == [frame[pos..pos + n]] + Pieces(frame, pos + n, rest)
  {
    assert ([x] + rest)[1..] == rest;
  }

  // ----- What one node gets -----

  /** The bytes written to the node at position `k`, a target perhaps more than once. */
  function Share(ts: seq<nat>, ps: seq<seq<Byte>>, k: nat): seq<Byte>
    requires |ts| == |ps|
  {
    if ts == [] then []
    else
      var n := |ts| - 1;
      Share(ts[..n], ps[..n], k) + (if ts[n] == k then ps[n] else [])
  }

  /** No byte has gone to another node before the `n`-th write. */
  predicate OnlyTo(ts: seq<nat>, ps: seq<seq<Byte>>, k: nat, n: nat)
    requires n <= |ts| == |ps|
  {
    forall j :: 0 <= j < n ==> ts[j] == k || ps[j] == []
  }

  lemma {:induction false} ShareUpTo(frame: seq<Byte>, ts: seq<nat>, accepts: seq<nat>, k: nat, n: nat)
    requires n <= |ts| == |accepts|
    ensures var ps := Pieces(frame, 0, accepts);
      var at, share := Position(|frame|, 0, accepts, n), Share(ts[..n], ps[..n], k);
      && |share| <= at
      && (OnlyTo(ts, ps, k, n) ==> share == frame[..at])
      && (|share| == at ==> OnlyTo(ts, ps, k, n))
  {
    if n > 0 {
      var ps := Pieces(frame, 0, accepts);
      ShareUpTo(frame, ts, accepts, k, n - 1);
      PieceIs(frame, 0, accepts, n - 1);
      assert ts[..n][..n - 1] == ts[..n - 1] && ps[..n][..n - 1] == ps[..n - 1];
    }
  }

  /** Until the frame is used up, every socket but the node's own takes nothing. */
  predicate TakesAll(len: nat, ts: seq<nat>, accepts: seq<nat>, k: nat, n: nat)
    requires n <= |ts| == |accepts|
  {
    (forall j :: 0 <= j < n ==> ts[j] == k || accepts[j] == 0) && Sum(accepts[..n]) >= len
  }

  lemma TakingAllIsWhole(frame: seq<Byte>, ts: seq<nat>, accepts: seq<nat>, k: nat, n: nat)
    requires n <= |ts| == |accepts| && TakesAll(|frame|, ts, accepts, k, n)
    ensures Share(ts, Pieces(frame, 0, accepts), k) == frame
  {
    var ps := Pieces(frame, 0, accepts);
    forall j | 0 <= j < |ts| ensures ts[j] == k || ps[j] == [] {
      PieceIs(frame, 0, accepts, j);
      LastOfSum(accepts, j);
      if j >= n { SumGrows(accepts, n, j); }
    }
    SumGrows(accepts, n, |ts|);
    ShareUpTo(frame, ts, accepts, k, |ts|);
    assert ts[..|ts|] == ts && ps[..|ps|] == ps;
  }

  lemma {:induction false} SumGrows(accepts: seq<nat>, i: nat, j: nat)
    requires i <= j <= |accepts|
    ensures Sum(accepts[..i]) <= Sum(accepts[..j])
    decreases j - i
  {
    if i < j {
      LastOfSum(accepts, i);
      SumGrows(accepts, i + 1, j);
    }
  }

  /** The first position from which the buffer is empty. */
  lemma {:induction false} UsedUpAt(len: nat, accepts: seq<nat>, m: nat) returns (n: nat)
    requires m <= |accepts| && Sum(accepts[..m]) >= len
    ensures n <= m && Sum(accepts[..n]) >= len
    ensures forall j :: 0 <= j < n ==> Sum(accepts[..j]) < len
  {
    if len == 0 {
      n := 0;
    } else {
      LastOfSum(accepts, m - 1);
      if Sum(accepts[..m - 1]) >= len {
        n := UsedUpAt(len, accepts, m - 1);
      } else {
        n := m;
        forall j | 0 <= j < n ensures Sum(accepts[..j]) < len { SumGrows(accepts, j, m - 1); }
      }
    }
  }

  /** A node gets the whole frame exactly when, until the frame is used up, only its own socket
      takes any bytes. */
  lemma ShareIsWholeIff(frame: seq<Byte>, ts: seq<nat>, accepts: seq<nat>, k: nat)
    requires |ts| == |accepts|
    ensures Share(ts, Pieces(frame, 0, accepts), k) == frame
      <==> exists n :: 0 <= n <= |ts| && TakesAll(|frame|, ts, accepts, k, n)
  {
    var ps := Pieces(frame, 0, accepts);
    if Share(ts, ps, k) == frame {
      ShareUpTo(frame, ts, accepts, k, |ts|);
      assert ts[..|ts|] == ts && ps[..|ps|] == ps;
      var n := UsedUpAt(|frame|, accepts, |ts|);
      forall j | 0 <= j < n ensures ts[j] == k || accepts[j] == 0 {
        PieceIs(frame, 0, accepts, j);
        LastOfSum(accepts, j);
      }
      assert TakesAll(|frame|, ts, accepts, k, n);
    }
    if n :| 0 <= n <= |ts| && TakesAll(|frame|, ts, accepts, k, n) {
      TakingAllIsWhole(frame, ts, accepts, k, n);
    }
  }

  /** What the sockets of `n` writes take. */
  function Accepted(n: nat, accepts: nat -> nat): (xs: seq<nat>)
    ensures |xs| == n && forall i :: 0 <= i < n ==> xs[i] == accepts(i)
  {
    seq(n, i requires 0 <= i < n => accepts(i))
  }

  /** The bytes that one datagram puts on the socket of the node at position `k`. */
  function Inbox(ts: seq<nat>, frame: seq<Byte>, accepts: nat -> nat, k: nat): seq<Byte> {
    Share(ts, Pieces(frame, 0, Accepted(|ts|, accepts)), k)
  }

  lemma InboxIsWholeIff(ts: seq<nat>, frame: seq<Byte>, accepts: nat -> nat, k: nat)
    ensures Inbox(ts, frame, accepts, k) == frame
      <==> exists n :: 0 <= n <= |ts| && TakesAll(|frame|, ts, Accepted(|ts|, accepts), k, n)
  {
    ShareIsWholeIff(frame, ts, Accepted(|ts|, accepts), k);
  }

  /** With one target at most, a node gets the whole frame or a part cut short, and the whole exactly
      when it is the target and its socket takes the frame at once. */
  lemma InboxOfOne(ts: seq<nat>, frame: seq<Byte>, accepts: nat -> nat, k: nat)
    requires |ts| <= 1 && frame != []
    ensures Inbox(ts, frame, accepts, k) == frame || Inbox(ts, frame, accepts, k) < frame
    ensures Inbox(ts, frame, accepts, k) == frame <==> ts == [k] && accepts(0) >= |frame|
    ensures ts != [k] ==> Inbox(ts, frame, accepts, k) == []
  {
    if ts != [] {
      var ps := Pieces(frame, 0, Accepted(1, accepts));
      assert ps[0] == frame[..Taken(|frame|, 0, accepts(0))];
      assert ts[..0] == [] && ps[..0] == [];
      assert ts == [ts[0]];
      assert Share(ts, ps, k) == if ts[0] == k then ps[0] else [];
    }
  }

  lemma {:induction false} ShareOfOthers(ts: seq<nat>, ps: seq<seq<Byte>>, k: nat)
    requires |ts| == |ps| && k !in ts
    ensures Share(ts, ps, k) == []
    decreases |ts|
  {
    if ts != [] { ShareOfOthers(ts[..|ts| - 1], ps[..|ps| - 1], k); }
  }

  /** The share of a node that is written to once is its piece. */
  lemma {:induction false} ShareOfOne(ts: seq<nat>, ps: seq<seq<Byte>>, i: nat)
    requires i < |ts| == |ps| && forall j :: 0 <= j < |ts| && j != i ==> ts[j] != ts[i]
    ensures Share(ts, ps, ts[i]) == ps[i]
    decreases |ts|
  {
    var n := |ts| - 1;
    if i == n {
      ShareOfOthers(ts[..n], ps[..n], ts[i]);
    } else {
      ShareOfOne(ts[..n], ps[..n], i);
    }
  }

  /** A node that only the i-th write is to gets the bytes between the positions of the buffer before
      and after that write. */
  lemma InboxIsSlice(ts: seq<nat>, frame: seq<Byte>, accepts: nat -> nat, i: nat)
    requires i < |ts| && forall j :: 0 <= j < |ts| && j != i ==> ts[j] != ts[i]
    ensures var xs := Accepted(|ts|, accepts);
      var p, q := Position(|frame|, 0, xs, i), Position(|frame|, 0, xs, i + 1);
      p <= q <= |frame| && Inbox(ts, frame, accepts, ts[i]) == frame[p..q]
  {
    ShareOfOne(ts, Pieces(frame, 0, Accepted(|ts|, accepts)), i);
    PieceIs(frame, 0, Accepted(|ts|, accepts), i);
  }

  lemma {:induction false} ShareOfFirst(ts: seq<nat>, ps: seq<seq<Byte>>, k: nat)
    requires |ts| == |ps| && ts != [] && forall i :: 1 <= i < |ps| ==> ps[i] == []
    ensures Share(ts, ps, k) == if ts[0] == k then ps[0] else []
    decreases |ts|
  {
    var n := |ts| - 1;
    if n == 0 {
      assert Share(ts[..0], ps[..0], k) == [];
    } else {
      ShareOfFirst(ts[..n], ps[..n], k);
    }
  }

  /** When every socket takes whole frames, the first target gets the frame and no other node a byte. */
  lemma InboxOfFirst(ts: seq<nat>, frame: seq<Byte>, accepts: nat -> nat, k: nat)
    requires forall i :: 0 <= i < |ts| ==> accepts(i) >= |frame|
    ensures Inbox(ts, frame, accepts, k) == if ts != [] && ts[0] == k then frame else []
  {
    if ts != [] {
      var xs := Accepted(|ts|, accepts);
      var ps := Pieces(frame, 0, xs);
      LastOfSum(xs, 0);
      PieceIs(frame, 0, xs, 0);
      assert xs[..0] == [];
      forall i | 1 <= i < |ts| ensures ps[i] == [] {
        PieceIs(frame, 0, xs, i);
        SumGrows(xs, 1, i);
      }
      ShareOfFirst(ts, ps, k);
    }
  }

  /** Every socket but the node's own takes nothing, and its own takes whole frames. */
  predicate Favours(ts: seq<nat>, len: nat, accepts: nat -> nat, k: nat) {
    forall j :: 0 <= j < |ts| ==> if ts[j] == k then accepts(j) >= len else accepts(j) == 0
  }

  lemma InboxOfFavoured(ts: seq<nat>, frame: seq<Byte>, accepts: nat -> nat, k: nat)
    requires Favours(ts, |frame|, accepts, k)
    ensures Inbox(ts, frame, accepts, k) == if k in ts then frame else []
  {
    var xs := Accepted(|ts|, accepts);
    if k in ts {
      var i :| 0 <= i < |ts| && ts[i] == k;
      FavouredTakesAll(ts, |frame|, accepts, k, i);
      InboxIsWholeIff(ts, frame, accepts, k);
    } else {
      ShareOfOthers(ts, Pieces(frame, 0, xs), k);
    }
  }

  lemma FavouredTakesAll(ts: seq<nat>, len: nat, accepts: nat -> nat, k: nat, i: nat)
    requires Favours(ts, len, accepts, k) && i < |ts| && ts[i] == k
    ensures TakesAll(len, ts, Accepted(|ts|, accepts), k, i + 1)
  {
    LastOfSum(Accepted(|ts|, accepts), i);
  }

  // ----- Where a datagram goes -----

  /** What a datagram's sender asks for: with an application of non-zero radius and coordinates whose
      root agent it hosts, only nodes near that location; else any node. */
  predicate Allows(hostsRootAgent: bool, app: Location, near: Near, n: Node) {
    hostsRootAgent && app.radius != 0 && !IsZero(app.lat) && !IsZero(app.lon) ==> near(n.lat, n.lon, app)
  }

  lemma LocationDecides(app0: Location, node: Node, frame: seq<Byte>, hostsRootAgent: bool, app: Location, near: Near)
    requires |frame| >= TRAILER_LEN
    requires LocationAt(frame) == if hostsRootAgent then app else Location(0, Zeros(8), Zeros(8))
    ensures Remember(app0, frame) ==
      if hostsRootAgent && app.radius != 0 && !IsZero(app.lat) && !IsZero(app.lon) then app else app0
    ensures Passes(node, Remember(app0, frame), frame, near) <==> Allows(hostsRootAgent, app, near, node)
    ensures Passes(node, LocationAt(frame), frame, near) <==> Allows(hostsRootAgent, app, near, node)
  {
  }

  /** The test before each write is what the sender asks for, and a handler remembers exactly the
      locations that restrict. */
  lemma SenderDecides(app0: Location, node: Node, d: Datagram, hostsRootAgent: bool, app: Location, near: Near)
    requires ValidLocation(app)
    ensures |DatagramFrame(d, hostsRootAgent, app)| >= TRAILER_LEN
    ensures var frame := DatagramFrame(d, hostsRootAgent, app);
      && Remember(app0, frame) ==
           (if hostsRootAgent && app.radius != 0 && !IsZero(app.lat) && !IsZero(app.lon) then app else app0)
      && (Passes(node, Remember(app0, frame), frame, near) <==> Allows(hostsRootAgent, app, near, node))
      && (Passes(node, LocationAt(frame), frame, near) <==> Allows(hostsRootAgent, app, near, node))
  {
    WriterLocationIsRead(d, hostsRootAgent, app);
    LocationDecides(app0, node, DatagramFrame(d, hostsRootAgent, app), hostsRootAgent, app, near);
  }

  /** A datagram that the decoder does not take for a broadcast goes to one node at most: the first
      with the address that the decoder reads, when the location allows it. */
  lemma UnicastTargets(ns: seq<Node>, from: nat, d: Datagram, hostsRootAgent: bool, app: Location, near: Near)
    requires ValidLocation(app) && Decoded(d.dest) != BROADCAST
    ensures |DatagramFrame(d, hostsRootAgent, app)| >= TRAILER_LEN
    ensures var frame := DatagramFrame(d, hostsRootAgent, app);
      var k := FindAddr(ns, Decoded(d.dest), 0);
      Targets(ns, from, frame, near) ==
        if k < |ns| && Allows(hostsRootAgent, app, near, ns[k]) then [k] else []
  {
    DirectoryReadsTheDestination(d, hostsRootAgent, app);
    DatagramFrameEndsInTrailer(d, hostsRootAgent, app);
    var k := FindAddr(ns, Decoded(d.dest), 0);
    if k < |ns| { SenderDecides(app, ns[k], d, hostsRootAgent, app, near); }
  }

  /** A broadcast for the nodes other than the sender's that pass, each exactly once. */
  predicate OthersOnce(ts: seq<nat>, ns: seq<Node>, from: nat, frame: seq<Byte>, near: Near)
    requires |frame| >= TRAILER_LEN
  {
    forall k :: 0 <= k < |ns| ==>
      multiset(ts)[k] == if IsOther(ns[k], from, frame, near) then 1 else 0
  }

  lemma OneMoreCounts(ts: seq<nat>, t: nat, k: nat)
    ensures multiset(ts + [t])[k] == multiset(ts)[k] + if t == k then 1 else 0
  {
  }

  lemma {:induction false} LoopReachesOnce(ns: seq<Node>, n: nat, from: nat, frame: seq<Byte>, near: Near, k: nat)
    requires n <= |ns| && |frame| >= TRAILER_LEN && k < |ns|
    ensures multiset(BroadcastTargets(ns, n, from, frame, near))[k]
         == if k < n && IsOther(ns[k], from, frame, near) then 1 else 0
  {
    if n > 0 {
      LoopReachesOnce(ns, n - 1, from, frame, near, k);
      OneMoreCounts(BroadcastTargets(ns, n - 1, from, frame, near), n - 1, k);
    }
  }

  /** The node that a broadcast is also written to before the loop, as the node of its address. */
  predicate WrittenFirst(ns: seq<Node>, frame: seq<Byte>, near: Near, k: nat)
    requires |frame| >= TRAILER_LEN
  {
    k < |ns| && k == FindAddr(ns, BROADCAST, 0) && Passes(ns[k], LocationAt(frame), frame, near)
  }

  /** How often a broadcast is written to each node. */
  lemma BroadcastCounts(ns: seq<Node>, from: nat, frame: seq<Byte>, near: Near, k: nat)
    requires |frame| >= TRAILER_LEN && Destination(frame) == BROADCAST && k < |ns|
    ensures multiset(Targets(ns, from, frame, near))[k]
         == (if WrittenFirst(ns, frame, near, k) then 1 else 0)
            + (if IsOther(ns[k], from, frame, near) then 1 else 0)
  {
    LoopReachesOnce(ns, |ns|, from, frame, near, k);
  }

  /** The same for the frame that a sender's writer made: a node is written to in the loop exactly when
      its socket is another and the sender's location allows it, and before the loop exactly when it is
      the first of address 0xFFFF and allowed. */
  lemma BroadcastWrites(ns: seq<Node>, from: nat, d: Datagram, hostsRootAgent: bool, app: Location, near: Near, k: nat)
    requires ValidLocation(app) && Decoded(d.dest) == 0xffff && k < |ns|
    ensures |DatagramFrame(d, hostsRootAgent, app)| >= TRAILER_LEN
    ensures multiset(Targets(ns, from, DatagramFrame(d, hostsRootAgent, app), near))[k]
         == (if k == FindAddr(ns, 0xffff, 0) && Allows(hostsRootAgent, app, near, ns[k]) then 1 else 0)
            + (if ns[k].sock != from && Allows(hostsRootAgent, app, near, ns[k]) then 1 else 0)
  {
    DirectoryReadsTheDestination(d, hostsRootAgent, app);
    SenderDecides(app, ns[k], d, hostsRootAgent, app, near);
    BroadcastCounts(ns, from, DatagramFrame(d, hostsRootAgent, app), near, k);
  }

  /** Without that node the writes are those of the loop. */
  lemma LoopOnly(ns: seq<Node>, from: nat, frame: seq<Byte>, near: Near)
    requires |frame| >= TRAILER_LEN && Destination(frame) == BROADCAST
    requires !WrittenFirst(ns, frame, near, FindAddr(ns, BROADCAST, 0))
    ensures Targets(ns, from, frame, near) == BroadcastTargets(ns, |ns|, from, frame, near)
  {
  }

  /** A broadcast goes to each other passing node exactly once, and never back to the sender,
      exactly when the first node of address 0xFFFF, if there is one, does not pass; then the
      writes follow the registry's order. */
  lemma BroadcastReachesOthersIff(ns: seq<Node>, from: nat, frame: seq<Byte>, near: Near)
    requires |frame| >= TRAILER_LEN && Destination(frame) == BROADCAST
    ensures OthersOnce(Targets(ns, from, frame, near), ns, from, frame, near)
      <==> !WrittenFirst(ns, frame, near, FindAddr(ns, BROADCAST, 0))
    ensures !WrittenFirst(ns, frame, near, FindAddr(ns, BROADCAST, 0)) ==> Increasing(Targets(ns, from, frame, near))
  {
    var u := FindAddr(ns, BROADCAST, 0);
    if WrittenFirst(ns, frame, near, u) {
      BroadcastCounts(ns, from, frame, near, u);
    } else {
      forall k | 0 <= k < |ns|
        ensures multiset(Targets(ns, from, frame, near))[k] == if IsOther(ns[k], from, frame, near) then 1 else 0
      {
        BroadcastCounts(ns, from, frame, near, k);
      }
      LoopOnly(ns, from, frame, near);
      LoopInOrder(ns, |ns|, from, frame, near);
    }
  }

  /** After any run of the directory that node is the 65535th registered, if there are that many. */
  lemma BroadcastAddressIsAssigned(es: seq<Event>)
    ensures var ns := Run(Initial(), es).registry.nodes;
      FindAddr(ns, BROADCAST, 0) == if |ns| >= 0xffff then 0xfffe else |ns|
  {
    DirectoryFromStart(es);
    FirstOfAddress(Run(Initial(), es).registry, BROADCAST);
  }

  /** Failing inputs: with one registered node, of address 0xFFFF, another sender's broadcast is
      written to it twice, and its own is written back to it. */
  lemma BroadcastRepeats(n: Node, from: nat, frame: seq<Byte>)
    requires |frame| >= TRAILER_LEN && Destination(frame) == BROADCAST && n.addr == BROADCAST
    ensures Targets([n], from, frame, (_, _, _) => true) == if n.sock != from then [0, 0] else [0]
  {
    assert BroadcastTargets([n], 0, from, frame, (_, _, _) => true) == [];
  }
}
