/** The event queue as the imperative component: the statements of `sync_sim_queue_insert` and
    `run_next_event`, one per call, on the array heap itself. Each is proved to be the matching
    step of `QueueProtocol`. */
module SimEventQueue {
  import opened Words
  import opened HeapOrder
  import opened EventHeap
  import opened QueueProtocol

  class EventQueue {
    const heap: EventHeap.Heap
    var sem: nat
    var mutex: Holder
    var producers: seq<Producer>
    var consumer: Consumer
    ghost var inserted: multiset<Node>
    ghost var popped: seq<Node>
    ghost var dispatched: seq<Node>
    ghost var interrupts: nat
    ghost var stolen: nat
    ghost var wasted: nat

    ghost predicate Valid()
      reads this, heap, heap.data
    {
      heap.Valid()
    }

    ghost function State(): Queue
      reads this, heap, heap.data
      requires Valid()
    {
      Queue(heap.Contents(), sem, mutex, producers, consumer, inserted, popped, dispatched, interrupts,
            stolen, wasted)
    }

    constructor (n: nat)
      ensures Valid() && fresh(heap) && fresh(heap.data) && State() == Initial(n) && QueueProtocol.Inv(State())
    {
      heap := new EventHeap.Heap();
      sem, mutex, producers, consumer := 0, Free, seq(n, _ => Idle), Waiting;
      inserted, popped, dispatched, interrupts, stolen, wasted := multiset{}, [], [], 0, 0, 0;
      new;
      InitialInv(n);
    }

    /** A thread enters `sync_sim_queue_insert`. */
    method CallInsert(p: nat, event: nat, time: int)
      requires Valid() && Enabled(State(), Call(p, Node(event, time)))
      modifies this
      ensures Valid() && State() == Perform(old(State()), Call(p, Node(event, time)))
    {
      producers := producers[p := Locking(Node(event, time))];
    }

    /** The insertion, inside the lock. */
    method InsertEvent(p: nat, node: Node)
      requires Valid() && p < |producers| && producers[p] == Inserting(node)
      modifies this`inserted, this`producers, heap, heap.data
      ensures heap.data == old(heap.data) || fresh(heap.data)
      ensures Valid()
      ensures State() == old(State()).(heap := Insert(old(heap.Contents()), node),
                                       inserted := old(inserted) + multiset{node},
                                       producers := old(producers)[p := Unlocking(node)])
    {
      heap.Insert(node.data, node.key);
      inserted := inserted + multiset{node};
      producers := producers[p := Unlocking(node)];
    }

    /** The next statement of producer `p`: lock, insert, unlock or post. */
    method AdvanceProducer(p: nat)
      requires Valid() && Enabled(State(), Advance(p))
      modifies this, heap, heap.data
      ensures heap.data == old(heap.data) || fresh(heap.data)
      ensures Valid() && State() == Perform(old(State()), Advance(p))
    {
      match producers[p]
      case Locking(node) =>
        mutex := ByProducer(p);
        producers := producers[p := Inserting(node)];
      case Inserting(node) =>
        InsertEvent(p, node);
      case Unlocking(node) =>
        mutex := Free;
        producers := producers[p := Posting(node)];
      case Posting(node) =>
        sem := sem + 1;
        producers := producers[p := Idle];
    }

    /** `sem_wait`: takes a unit, or returns early when a signal interrupts it. */
    method SemWait(interrupted: bool)
      requires Valid() && Enabled(State(), if interrupted then Interrupt else Wait)
      modifies this
      ensures Valid() && State() == Perform(old(State()), if interrupted then Interrupt else Wait)
    {
      if interrupted {
        interrupts := interrupts + 1;
        consumer := Checking(false);
      } else {
        sem := sem - 1;
        consumer := Checking(true);
      }
    }

    /** `sim_queue_pop`, inside the lock. */
    method PopEvent()
      requires Valid() && consumer.Popping? && !PopsNothing(State())
      modifies this, heap, heap.data
      ensures heap.data == old(heap.data) || fresh(heap.data)
      ensures Valid() && State() == Perform(old(State()), Consume)
    {
      PoppingIs(State());
      var event, key := heap.PopMinData();
      RecordPop(Node(event, key));
    }

    method RecordPop(node: Node)
      requires Valid() && consumer.Popping?
      modifies this`popped, this`stolen, this`consumer
      ensures Valid()
      ensures State() == old(State()).(popped := old(popped) + [node], consumer := Leaving(node),
                                       stolen := old(stolen) + if old(consumer).spent then 0 else 1)
    {
      popped := popped + [node];
      stolen := stolen + if consumer.spent then 0 else 1;
      consumer := Leaving(node);
    }

    /** The next statement of `run_next_event` after the wait. `outcome` is false when the call
        returns because it found the queue empty. The pop has no guard of its own: that the heap
        is not empty then is what `PerformKeepsInv` proves of every reachable state. */
    method AdvanceConsumer() returns (outcome: bool)
      requires Valid() && Enabled(State(), Consume) && !PopsNothing(State())
      modifies this, heap, heap.data
      ensures heap.data == old(heap.data) || fresh(heap.data)
      ensures Valid() && State() == Perform(old(State()), Consume)
      ensures !outcome <==> old(consumer).Checking? && old(heap.Contents()) == []
    {
      outcome := true;
      match consumer
      case Checking(spent) =>
        if heap.IsEmpty() {
          consumer := Waiting;
          wasted := wasted + if spent then 1 else 0;
          outcome := false;
        } else {
          consumer := Entering(spent);
        }
      case Entering(spent) =>
        mutex := ByConsumer;
        consumer := Popping(spent);
      case Popping(spent) =>
        PopEvent();
      case Leaving(node) =>
        mutex := Free;
        consumer := Dispatching(node);
      case Dispatching(node) =>
        dispatched := dispatched + [node];
        consumer := Waiting;
    }

    method TakeStep(st: Step)
      requires Valid() && Enabled(State(), st) && !Fails(State(), st)
      modifies this, heap, heap.data
      ensures heap.data == old(heap.data) || fresh(heap.data)
      ensures Valid() && State() == Perform(old(State()), st)
    {
      match st
      case Call(p, node) => CallInsert(p, node.data, node.key);
      case Advance(p) => AdvanceProducer(p);
      case Wait => SemWait(false);
      case Interrupt => SemWait(true);
      case Consume => var _ := AdvanceConsumer();
    }

    /** Any interleaving of the threads, on the array heap: it never fails, and it ends in the state
        that the protocol's run ends in. */
    method Execute(steps: seq<Step>)
      requires Valid() && QueueProtocol.Inv(State()) && Schedulable(State(), steps)
      modifies this, heap, heap.data
      ensures Valid() && State() == Run(old(State()), steps) && QueueProtocol.Inv(State())
    {
      ghost var goal := Run(State(), steps);
      for i := 0 to |steps|
        invariant Valid() && QueueProtocol.Inv(State())
        invariant heap.data == old(heap.data) || fresh(heap.data)
        invariant Schedulable(State(), steps[i..]) && Run(State(), steps[i..]) == goal
      {
        assert steps[i..][0] == steps[i] && steps[i..][1..] == steps[i + 1..];
        PerformKeepsInv(State(), steps[i]);
        TakeStep(steps[i]);
      }
    }
  }
}
