/** The event queue shared by many producers and one consumer: a heap under a mutex and a
    semaphore that counts posts, as an interleaving of program counters. */
module QueueProtocol {
  import opened Words
  import opened HeapOrder

  /** `sync_sim_queue_insert`: lock, insert, unlock, post. */
  datatype Producer =
    | Idle
    | Locking(node: Node)
    | Inserting(node: Node)
    | Unlocking(node: Node)
    | Posting(node: Node)

  /** `run_next_event`: wait, unlocked emptiness check, lock, pop, unlock, dispatch. `spent` says
      that the wait really took a unit of the semaphore and was not interrupted. */
  datatype Consumer =
    | Waiting
    | Checking(spent: bool)
    | Entering(spent: bool)
    | Popping(spent: bool)
    | Leaving(node: Node)
    | Dispatching(node: Node)

  datatype Holder = Free | ByProducer(p: nat) | ByConsumer

  /** The last six fields are a history of the run and guide no step. */
  datatype Queue = Queue(
    heap: seq<Node>,
    sem: nat,
    mutex: Holder,
    producers: seq<Producer>,
    consumer: Consumer,
    inserted: multiset<Node>,
    popped: seq<Node>,
    dispatched: seq<Node>,
    interrupts: nat,   // waits that returned without taking a unit
    stolen: nat,       // pops made after such a wait
    wasted: nat)       // empty checks made after a wait that took a unit

  datatype Step =
    | Call(p: nat, node: Node)
    | Advance(p: nat)
    | Wait
    | Interrupt
    | Consume

  predicate Enabled(q: Queue, st: Step) {
    match st
    case Call(p, _) => p < |q.producers| && q.producers[p].Idle?
    case Advance(p) => p < |q.producers| && !q.producers[p].Idle? && (q.producers[p].Locking? ==> q.mutex.Free?)
    case Wait => q.consumer.Waiting? && q.sem > 0
    case Interrupt => q.consumer.Waiting?
    case Consume => !q.consumer.Waiting? && (q.consumer.Entering? ==> q.mutex.Free?)
  }

  function AdvanceProducer(q: Queue, p: nat): Queue
    requires Enabled(q, Advance(p))
  {
    match q.producers[p]
    case Locking(node) => q.(mutex := ByProducer(p), producers := q.producers[p := Inserting(node)])
    case Inserting(node) =>
      q.(heap := Insert(q.heap, node), inserted := q.inserted + multiset{node},
         producers := q.producers[p := Unlocking(node)])
    case Unlocking(node) => q.(mutex := Free, producers := q.producers[p := Posting(node)])
    case Posting(node) => q.(sem := q.sem + 1, producers := q.producers[p := Idle])
  }

  /** The pop would read before the array if the heap were empty. */
  predicate PopsNothing(q: Queue) {
    q.consumer.Popping? && q.heap == []
  }

  function AdvanceConsumer(q: Queue): Queue
    requires Enabled(q, Consume) && !PopsNothing(q)
  {
    match q.consumer
    case Checking(spent) =>
      if q.heap == [] then q.(consumer := Waiting, wasted := q.wasted + if spent then 1 else 0)
      else q.(consumer := Entering(spent))
    case Entering(spent) => q.(mutex := ByConsumer, consumer := Popping(spent))
    case Popping(spent) =>
      q.(heap := Pop(q.heap), popped := q.popped + [q.heap[0]], consumer := Leaving(q.heap[0]),
         stolen := q.stolen + if spent then 0 else 1)
    case Leaving(node) => q.(mutex := Free, consumer := Dispatching(node))
    case Dispatching(node) => q.(consumer := Waiting, dispatched := q.dispatched + [node])
  }

  function Perform(q: Queue, st: Step): Queue
    requires Enabled(q, st) && !(st.Consume? && PopsNothing(q))
  {
    match st
    case Call(p, node) => q.(producers := q.producers[p := Locking(node)])
    case Advance(p) => AdvanceProducer(q, p)
    case Wait => q.(sem := q.sem - 1, consumer := Checking(true))
    case Interrupt => q.(consumer := Checking(false), interrupts := q.interrupts + 1)
    case Consume => AdvanceConsumer(q)
  }

  lemma PoppingIs(q: Queue)
    requires q.consumer.Popping? && q.heap != []
    ensures Perform(q, Consume) ==
      q.(heap := Pop(q.heap), popped := q.popped + [q.heap[0]], consumer := Leaving(q.heap[0]),
         stolen := q.stolen + if q.consumer.spent then 0 else 1)
  {
  }

  /** A wait takes a unit of the semaphore, or returns early without one; either way the consumer then
      looks at the queue. */
  lemma WaitingIs(q: Queue)
    requires q.consumer.Waiting?
    ensures Enabled(q, Wait) <==> q.sem > 0
    ensures q.sem > 0 ==> Perform(q, Wait) == q.(sem := q.sem - 1, consumer := Checking(true))
    ensures Perform(q, Interrupt) == q.(consumer := Checking(false), interrupts := q.interrupts + 1)
  {
  }

  function Initial(n: nat): Queue {
    Queue([], 0, Free, seq(n, _ => Idle), Waiting, multiset{}, [], [], 0, 0, 0)
  }

  // ----- The accounting -----

  /** Between its insert and its post. */
  predicate Unposted(p: Producer) {
    p.Unlocking? || p.Posting?
  }

  function UnpostedCount(ps: seq<Producer>): nat {
    if ps == [] then 0 else UnpostedCount(ps[..|ps| - 1]) + (if Unposted(ps[|ps| - 1]) then 1 else 0)
  }

  lemma {:induction false} CountChanges(ps: seq<Producer>, p: nat, pc: Producer)
    requires p < |ps|
    ensures UnpostedCount(ps[p := pc])
         == UnpostedCount(ps) - (if Unposted(ps[p]) then 1 else 0) + (if Unposted(pc) then 1 else 0)
  {
    var qs := ps[p := pc];
    if p == |ps| - 1 {
      assert qs[..|qs| - 1] == ps[..|ps| - 1];
    } else {
      assert qs[..|qs| - 1] == ps[..|ps| - 1][p := pc];
      CountChanges(ps[..|ps| - 1], p, pc);
    }
  }

  lemma {:induction false} CountIsZeroIff(ps: seq<Producer>)
    ensures UnpostedCount(ps) == 0 <==> forall p :: 0 <= p < |ps| ==> !Unposted(ps[p])
  {
    if ps != [] {
      CountIsZeroIff(ps[..|ps| - 1]);
      assert forall p :: 0 <= p < |ps| - 1 ==> ps[..|ps| - 1][p] == ps[p];
    }
  }

  /** A unit taken by a wait and not used yet. */
  function UnitHeld(c: Consumer): nat {
    if (c.Checking? || c.Entering? || c.Popping?) && c.spent then 1 else 0
  }

  predicate Interrupted(c: Consumer) {
    (c.Checking? || c.Entering? || c.Popping?) && !c.spent
  }

  predicate InsideP(p: Producer) {
    p.Inserting? || p.Unlocking?
  }

  predicate InsideC(c: Consumer) {
    c.Popping? || c.Leaving?
  }

  predicate MutualExclusion(q: Queue) {
    && (forall p :: 0 <= p < |q.producers| ==> (InsideP(q.producers[p]) <==> q.mutex == ByProducer(p)))
    && (InsideC(q.consumer) <==> q.mutex == ByConsumer)
  }

  /** The event popped and not dispatched yet. */
  function InHand(c: Consumer): seq<Node> {
    if c.Leaving? || c.Dispatching? then [c.node] else []
  }

  /** Every event popped is dispatched once, in the order of the pops. */
  predicate InOrderOfPops(q: Queue) {
    q.popped == q.dispatched + InHand(q.consumer)
  }

  predicate Accounted(q: Queue) {
    && Heap(q.heap)
    && MutualExclusion(q)
    && (q.consumer.Entering? || q.consumer.Popping? ==> q.heap != [])
    && q.sem + UnpostedCount(q.producers) + UnitHeld(q.consumer) + q.wasted == |q.heap| + q.stolen
    && q.wasted <= q.stolen <= q.interrupts
    && (Interrupted(q.consumer) ==> q.stolen < q.interrupts)
    && q.inserted == multiset(q.heap) + multiset(q.popped)
  }

  predicate Inv(q: Queue) {
    Accounted(q) && InOrderOfPops(q)
  }

  lemma {:induction false} InitialInv(n: nat)
    ensures Inv(Initial(n))
  {
    CountIsZeroIff(Initial(n).producers);
  }

  lemma ProducerKeepsAccounts(q: Queue, p: nat)
    requires Accounted(q) && Enabled(q, Advance(p))
    ensures Accounted(AdvanceProducer(q, p))
  {
    var q' := AdvanceProducer(q, p);
    CountChanges(q.producers, p, q'.producers[p]);
    assert q'.producers == q.producers[p := q'.producers[p]];
    if q.producers[p].Inserting? {
      InsertKeepsHeap(q.heap, q.producers[p].node);
      InsertAddsOne(q.heap, q.producers[p].node);
    }
  }

  lemma ProducerKeepsInv(q: Queue, p: nat)
    requires Inv(q) && Enabled(q, Advance(p))
    ensures Inv(AdvanceProducer(q, p))
  {
    ProducerKeepsAccounts(q, p);
  }

  lemma PopStepKeepsAccounts(q: Queue)
    requires Accounted(q) && q.consumer.Popping? && q.heap != []
    ensures Accounted(Perform(q, Consume))
  {
    PoppingIs(q);
    PopKeepsHeap(q.heap);
    PopRemovesRoot(q.heap);
    assert multiset(q.popped + [q.heap[0]]) == multiset(q.popped) + multiset{q.heap[0]};
  }

  lemma ConsumerKeepsAccounts(q: Queue)
    requires Accounted(q) && Enabled(q, Consume) && !PopsNothing(q)
    ensures Accounted(AdvanceConsumer(q))
  {
    if q.consumer.Popping? { PopStepKeepsAccounts(q); }
  }

  /** The event dispatched is the one in hand, and the one in hand is the last popped. */
  lemma ConsumerKeepsOrder(q: Queue)
    requires InOrderOfPops(q) && Enabled(q, Consume) && !PopsNothing(q)
    ensures InOrderOfPops(AdvanceConsumer(q))
  {
  }

  lemma ConsumerKeepsInv(q: Queue)
    requires Inv(q) && Enabled(q, Consume) && !PopsNothing(q)
    ensures Inv(AdvanceConsumer(q))
  {
    ConsumerKeepsAccounts(q);
    ConsumerKeepsOrder(q);
  }

  /** Every step keeps the accounting; in particular a consumer that saw a non-empty heap without
      the lock never pops an empty one. */
  lemma PerformKeepsInv(q: Queue, st: Step)
    requires Inv(q) && Enabled(q, st)
    ensures !PopsNothing(q) && Inv(Perform(q, st))
  {
    match st
    case Call(p, node) => CountChanges(q.producers, p, Locking(node));
    case Advance(p) => ProducerKeepsInv(q, p);
    case Wait =>
    case Interrupt =>
    case Consume => ConsumerKeepsInv(q);
  }

  // ----- Runs -----

  predicate Fails(q: Queue, st: Step) {
    st.Consume? && PopsNothing(q)
  }

  /** The steps are enabled one after the other; popping an empty heap would end the run. */
  predicate Schedulable(q: Queue, steps: seq<Step>)
    decreases |steps|
  {
    if steps == [] then true
    else Enabled(q, steps[0]) && (!Fails(q, steps[0]) ==> Schedulable(Perform(q, steps[0]), steps[1..]))
  }

  function Run(q: Queue, steps: seq<Step>): Queue
    requires Schedulable(q, steps)
    decreases |steps|
  {
    if steps == [] || Fails(q, steps[0]) then q else Run(Perform(q, steps[0]), steps[1..])
  }

  lemma {:induction false} RunKeepsInv(q: Queue, steps: seq<Step>)
    requires Inv(q) && Schedulable(q, steps)
    ensures Inv(Run(q, steps)) && !PopsNothing(Run(q, steps))
    decreases |steps|
  {
    if steps != [] {
      PerformKeepsInv(q, steps[0]);
      RunKeepsInv(Perform(q, steps[0]), steps[1..]);
    }
  }

  /** In every state of every interleaving of any number of producers with the consumer: the queue
      is no longer than the semaphore, the pending posts and the unused unit account for, with
      equality while no wait was interrupted; wake-ups that took a unit and found nothing never
      outnumber pops made without one; an empty heap is never popped; no event is lost, duplicated or
      invented; and the events dispatched are the events popped, once each and in order, but for one
      that the consumer may hold. */
  lemma RunKeepsAccounts(n: nat, steps: seq<Step>)
    requires Schedulable(Initial(n), steps)
    ensures var q := Run(Initial(n), steps);
      var accounted := q.sem + UnpostedCount(q.producers) + UnitHeld(q.consumer);
      && |q.heap| <= accounted
      && (q.interrupts == 0 ==> |q.heap| == accounted)
      && accounted - |q.heap| == q.stolen - q.wasted
      && q.wasted <= q.stolen <= q.interrupts
      && multiset(q.heap) + multiset(q.popped) == q.inserted
      && q.popped == q.dispatched + (if q.consumer.Leaving? || q.consumer.Dispatching? then [q.consumer.node] else [])
      && !PopsNothing(q) && MutualExclusion(q)
  {
    InitialInv(n);
    RunKeepsInv(Initial(n), steps);
  }

  predicate Blocked(q: Queue) {
    q.consumer.Waiting? && q.sem == 0
  }

  predicate SomeUnposted(q: Queue) {
    exists p :: 0 <= p < |q.producers| && Unposted(q.producers[p])
  }

  /** A consumer that blocks on a non-empty queue waits for a producer that has inserted and not
      posted yet; without interrupted waits that is exactly when it can happen. */
  lemma BlocksOnlyForPendingPost(q: Queue)
    requires Inv(q) && Blocked(q)
    ensures q.heap != [] ==> SomeUnposted(q)
    ensures q.interrupts == 0 ==> (q.heap != [] <==> SomeUnposted(q))
    ensures |q.heap| <= UnpostedCount(q.producers)
  {
    CountIsZeroIff(q.producers);
  }

  /** The event popped is of least time among those queued. */
  lemma PopsLeast(q: Queue)
    requires Inv(q) && q.consumer.Popping?
    ensures q.heap != [] && IsLeast(AdvanceConsumer(q).consumer.node, q.heap)
  {
    PopKeepsHeap(q.heap);
  }

  // ----- Which events are posted -----

  /** The event of a producer between its insert and its post. */
  function PendingNode(p: Producer): multiset<Node> {
    if Unposted(p) then multiset{p.node} else multiset{}
  }

  function UnpostedNodes(ps: seq<Producer>): multiset<Node> {
    if ps == [] then multiset{} else UnpostedNodes(ps[..|ps| - 1]) + PendingNode(ps[|ps| - 1])
  }

  lemma {:induction false} NodesCounted(ps: seq<Producer>)
    ensures |UnpostedNodes(ps)| == UnpostedCount(ps)
  {
    if ps != [] { NodesCounted(ps[..|ps| - 1]); }
  }

  function PendingCount(p: Producer, x: Node): nat {
    if Unposted(p) && p.node == x then 1 else 0
  }

  lemma LastCounts(ps: seq<Producer>, x: Node)
    requires ps != []
    ensures UnpostedNodes(ps)[x] == UnpostedNodes(ps[..|ps| - 1])[x] + PendingCount(ps[|ps| - 1], x)
  {
  }

  lemma {:induction false} NodesChange(ps: seq<Producer>, p: nat, pc: Producer, x: Node)
    requires p < |ps|
    ensures UnpostedNodes(ps[p := pc])[x] + PendingCount(ps[p], x) == UnpostedNodes(ps)[x] + PendingCount(pc, x)
  {
    var qs, front := ps[p := pc], ps[..|ps| - 1];
    LastCounts(ps, x);
    LastCounts(qs, x);
    if p == |ps| - 1 {
      assert qs[..|qs| - 1] == front;
    } else {
      assert qs[..|qs| - 1] == front[p := pc];
      NodesChange(front, p, pc, x);
    }
  }

  /** What is not posted has been inserted. */
  predicate Issued(q: Queue) {
    UnpostedNodes(q.producers) <= q.inserted
  }

  lemma {:induction false} NothingPending(ps: seq<Producer>)
    requires forall p :: 0 <= p < |ps| ==> !Unposted(ps[p])
    ensures UnpostedNodes(ps) == multiset{}
  {
    if ps != [] { NothingPending(ps[..|ps| - 1]); }
  }

  /** How a producer's step moves events: it inserts one, posts one, or neither. */
  predicate Moves(from: Producer, to: Producer, inserted: multiset<Node>, inserted': multiset<Node>) {
    if !Unposted(from) && Unposted(to) then inserted' == inserted + multiset{to.node}
    else inserted' == inserted && (Unposted(to) ==> Unposted(from) && to.node == from.node)
  }

  lemma MovesKeepIssued(ps: seq<Producer>, p: nat, to: Producer, inserted: multiset<Node>, inserted': multiset<Node>)
    requires p < |ps| && UnpostedNodes(ps) <= inserted && Moves(ps[p], to, inserted, inserted')
    ensures UnpostedNodes(ps[p := to]) <= inserted'
  {
    forall x ensures UnpostedNodes(ps[p := to])[x] <= inserted'[x] {
      NodesChange(ps, p, to, x);
      assert UnpostedNodes(ps)[x] <= inserted[x];
    }
  }

  lemma AdvanceMoves(q: Queue, p: nat)
    requires Enabled(q, Advance(p))
    ensures var q' := AdvanceProducer(q, p);
      && q'.producers == q.producers[p := q'.producers[p]]
      && Moves(q.producers[p], q'.producers[p], q.inserted, q'.inserted)
  {
  }

  lemma PerformKeepsIssued(q: Queue, st: Step)
    requires Issued(q) && Enabled(q, st) && !Fails(q, st)
    ensures Issued(Perform(q, st))
  {
    match st
    case Call(p, node) => MovesKeepIssued(q.producers, p, Locking(node), q.inserted, q.inserted);
    case Advance(p) =>
      AdvanceMoves(q, p);
      MovesKeepIssued(q.producers, p, AdvanceProducer(q, p).producers[p], q.inserted, AdvanceProducer(q, p).inserted);
    case _ =>
  }

  lemma {:induction false} RunKeepsIssued(q: Queue, steps: seq<Step>)
    requires Inv(q) && Issued(q) && Schedulable(q, steps)
    ensures Issued(Run(q, steps))
    decreases |steps|
  {
    if steps != [] {
      PerformKeepsInv(q, steps[0]);
      PerformKeepsIssued(q, steps[0]);
      RunKeepsIssued(Perform(q, steps[0]), steps[1..]);
    }
  }

  /** Events in the queue whose producers have posted them. */
  function PostedQueued(q: Queue): multiset<Node> {
    multiset(q.heap) - UnpostedNodes(q.producers)
  }

  /** Events out of the queue whose producers have not posted them yet. */
  function PoppedEarly(q: Queue): multiset<Node> {
    UnpostedNodes(q.producers) - multiset(q.heap)
  }

  lemma BagDifferences(a: multiset<Node>, b: multiset<Node>)
    ensures |a - b| + |b| == |b - a| + |a|
  {
    assert a == (a - b) + (a * b) && b == (b - a) + (a * b);
  }

  lemma EarlyPopsWerePops(q: Queue)
    requires Issued(q) && q.inserted == multiset(q.heap) + multiset(q.popped)
    ensures PoppedEarly(q) <= multiset(q.popped)
  {
    forall x ensures PoppedEarly(q)[x] <= multiset(q.popped)[x] {
      assert q.inserted[x] == multiset(q.heap)[x] + multiset(q.popped)[x];
    }
  }

  lemma ReachedIsIssued(n: nat, steps: seq<Step>)
    requires Schedulable(Initial(n), steps)
    ensures Accounted(Run(Initial(n), steps)) && Issued(Run(Initial(n), steps))
  {
    InitialInv(n);
    NothingPending(Initial(n).producers);
    RunKeepsInv(Initial(n), steps);
    RunKeepsIssued(Initial(n), steps);
  }

  lemma WaitingIff(q: Queue)
    requires Issued(q) && Accounted(q) && Blocked(q)
    ensures PoppedEarly(q) <= multiset(q.popped)
    ensures |PostedQueued(q)| + (q.stolen - q.wasted) == |PoppedEarly(q)|
    ensures PostedQueued(q) != multiset{} <==> |PoppedEarly(q)| > q.stolen - q.wasted
    ensures q.interrupts == 0 ==> (PostedQueued(q) != multiset{} <==> PoppedEarly(q) != multiset{})
  {
    EarlyPopsWerePops(q);
    NodesCounted(q.producers);
    BagDifferences(multiset(q.heap), UnpostedNodes(q.producers));
  }

  /** How many posted events a blocked consumer leaves in the queue, in every run: as many as were
      popped before their post, less the pops that an interrupted wait allowed without a unit. While
      no wait was interrupted, a posted event waits exactly when some event was popped before its
      post. */
  lemma PostedEventsWaitIff(n: nat, steps: seq<Step>)
    requires Schedulable(Initial(n), steps) && Blocked(Run(Initial(n), steps))
    ensures var q := Run(Initial(n), steps);
      && PoppedEarly(q) <= multiset(q.popped)
      && |PostedQueued(q)| + (q.stolen - q.wasted) == |PoppedEarly(q)|
      && (PostedQueued(q) != multiset{} <==> |PoppedEarly(q)| > q.stolen - q.wasted)
      && (q.interrupts == 0 ==> (PostedQueued(q) != multiset{} <==> PoppedEarly(q) != multiset{}))
  {
    ReachedIsIssued(n, steps);
    WaitingIff(Run(Initial(n), steps));
  }

  // ----- Undisturbed calls -----

  /** `q'` is reached by `steps`. */
  predicate Reaches(q: Queue, steps: seq<Step>, q': Queue) {
    Schedulable(q, steps) && Run(q, steps) == q'
  }

  lemma StepReaches(q: Queue, st: Step, rest: seq<Step>, q': Queue)
    requires Enabled(q, st) && !Fails(q, st) && Reaches(Perform(q, st), rest, q')
    ensures Reaches(q, [st] + rest, q')
  {
    assert ([st] + rest)[1..] == rest;
  }

  function Queued(q: Queue, p: nat, node: Node): Queue
    requires p < |q.producers|
  {
    q.(heap := Insert(q.heap, node), inserted := q.inserted + multiset{node},
       producers := q.producers[p := Posting(node)])
  }

  function Served(q: Queue): Queue
    requires q.sem > 0 && q.heap != []
  {
    q.(heap := Pop(q.heap), popped := q.popped + [q.heap[0]], dispatched := q.dispatched + [q.heap[0]],
       sem := q.sem - 1)
  }

  /** A producer's call up to its post: the entry is queued and the mutex is free again. */
  lemma InsertsAlone(q: Queue, p: nat, node: Node, rest: seq<Step>, q': Queue)
    requires p < |q.producers| && q.producers[p].Idle? && q.mutex.Free?
    requires Reaches(Queued(q, p, node), rest, q')
    ensures Reaches(q, [Call(p, node)] + ([Advance(p)] + ([Advance(p)] + ([Advance(p)] + rest))), q')
  {
    var q1 := Perform(q, Call(p, node));
    var q2 := Perform(q1, Advance(p));
    var q3 := Perform(q2, Advance(p));
    var q4 := Perform(q3, Advance(p));
    assert q4.producers == Queued(q, p, node).producers;
    assert q4 == Queued(q, p, node);
    StepReaches(q3, Advance(p), rest, q');
    StepReaches(q2, Advance(p), [Advance(p)] + rest, q');
    StepReaches(q1, Advance(p), [Advance(p)] + ([Advance(p)] + rest), q');
    StepReaches(q, Call(p, node), [Advance(p)] + ([Advance(p)] + ([Advance(p)] + rest)), q');
  }

  /** A consumer's call with a unit to take: it pops the root and waits again. */
  lemma ConsumesAlone(q: Queue, rest: seq<Step>, q': Queue)
    requires q.consumer.Waiting? && q.sem > 0 && q.mutex.Free? && q.heap != []
    requires Reaches(Served(q), rest, q')
    ensures Reaches(q, [Wait] + ([Consume] + ([Consume] + ([Consume] + ([Consume] + ([Consume] + rest))))), q')
  {
    var q1 := Perform(q, Wait);
    var q2 := Perform(q1, Consume);
    var q3 := Perform(q2, Consume);
    var q4 := Perform(q3, Consume);
    var q5 := Perform(q4, Consume);
    var q6 := Perform(q5, Consume);
    assert q6 == Served(q);
    StepReaches(q5, Consume, rest, q');
    StepReaches(q4, Consume, [Consume] + rest, q');
    StepReaches(q3, Consume, [Consume] + ([Consume] + rest), q');
    StepReaches(q2, Consume, [Consume] + ([Consume] + ([Consume] + rest)), q');
    StepReaches(q1, Consume, [Consume] + ([Consume] + ([Consume] + ([Consume] + rest))), q');
    StepReaches(q, Wait, [Consume] + ([Consume] + ([Consume] + ([Consume] + ([Consume] + rest)))), q');
  }

  lemma HeapOfTwo(a: Node, b: Node)
    requires b.key < a.key
    ensures Insert([], a) == [a] && Insert([a], b) == [b, a] && Pop([b, a]) == [a]
  {
    assert Swapped([a, b], 1, 0) == [b, a];
    assert LastToRoot([b, a]) == [a];
  }

  /** The states of the run below: `a` inserted, posted, `b` inserted, popped. */
  function Overtaking(a: Node, b: Node): (qs: seq<Queue>)
    ensures |qs| == 4
  {
    var q1 := Initial(2).(heap := [a], inserted := multiset{a}, producers := [Posting(a), Idle]);
    var q2 := q1.(producers := [Idle, Idle], sem := 1);
    var q3 := q2.(heap := [b, a], inserted := multiset{a} + multiset{b}, producers := [Idle, Posting(b)]);
    [q1, q2, q3, q3.(heap := [a], popped := [b], dispatched := [b], sem := 0)]
  }

  lemma OvertakingSteps(a: Node, b: Node)
    requires b.key < a.key
    ensures var qs := Overtaking(a, b);
      && Queued(Initial(2), 0, a) == qs[0]
      && Perform(qs[0], Advance(0)) == qs[1]
      && Queued(qs[1], 1, b) == qs[2]
      && Served(qs[2]) == qs[3]
  {
    HeapOfTwo(a, b);
    var qs := Overtaking(a, b);
    assert Initial(2).producers[0 := Posting(a)] == qs[0].producers;
    assert qs[0].producers[0 := Idle] == qs[1].producers;
    assert qs[1].producers[1 := Posting(b)] == qs[2].producers;
  }

  /** The consumer's call. */
  function Consuming(): seq<Step> {
    [Wait] + ([Consume] + ([Consume] + ([Consume] + ([Consume] + ([Consume] + [])))))
  }

  /** A producer's call up to its post, then `rest`. */
  function Producing(p: nat, node: Node, rest: seq<Step>): seq<Step> {
    [Call(p, node)] + ([Advance(p)] + ([Advance(p)] + ([Advance(p)] + rest)))
  }

  lemma OvertakingEnds(a: Node, b: Node)
    requires b.key < a.key
    ensures Reaches(Overtaking(a, b)[1], Producing(1, b, Consuming()), Overtaking(a, b)[3])
  {
    var qs := Overtaking(a, b);
    OvertakingSteps(a, b);
    assert Reaches(qs[3], [], qs[3]);
    ConsumesAlone(qs[2], [], qs[3]);
    InsertsAlone(qs[1], 1, b, Consuming(), qs[3]);
  }

  lemma OvertakingRun(a: Node, b: Node)
    requires b.key < a.key
    ensures Reaches(Initial(2), Producing(0, a, [Advance(0)] + Producing(1, b, Consuming())), Overtaking(a, b)[3])
  {
    var qs, more := Overtaking(a, b), Producing(1, b, Consuming());
    OvertakingSteps(a, b);
    OvertakingEnds(a, b);
    StepReaches(qs[0], Advance(0), more, qs[3]);
    InsertsAlone(Initial(2), 0, a, [Advance(0)] + more, qs[3]);
  }

  /** The guarantee is about how many events are posted, not about which: one producer's posted
      event stays queued behind a blocked consumer when its unit was used to pop an event of earlier
      time whose producer has not posted yet. */
  lemma PostedEventCanWait(a: Node, b: Node)
    requires b.key < a.key
    ensures exists q, steps ::
      && Reaches(Initial(2), steps, q) && q.interrupts == 0
      && Blocked(q) && q.producers == [Idle, Posting(b)] && q.heap == [a] && q.dispatched == [b]
  {
    OvertakingRun(a, b);
    assert Blocked(Overtaking(a, b)[3]);
  }
}
