/** The array-backed binary heap of pending events, over sequences: what the two sifts do to heap
    order, to the bag of entries, and how many swaps they take. */
module HeapOrder {

  /** An entry: an event, by address, and its time. */
  datatype Node = Node(data: nat, key: int)

  function Parent(i: int): int {
    (i - 1) / 2
  }

  function Swapped(s: seq<Node>, i: nat, j: nat): (r: seq<Node>)
    requires i < |s| && j < |s|
    ensures |r| == |s|
  {
    s[i := s[j]][j := s[i]]
  }

  function SiftUp(s: seq<Node>, i: nat): (r: seq<Node>)
    requires i < |s|
    ensures |r| == |s|
    decreases i
  {
    if i == 0 then s
    else if s[Parent(i)].key > s[i].key then SiftUp(Swapped(s, i, Parent(i)), Parent(i))
    else s
  }

  /** The child `down_heap` compares with: the right one on a tie. */
  function LesserChild(s: seq<Node>, i: nat): nat
    requires 2 * i + 2 < |s|
  {
    if s[2 * i + 1].key < s[2 * i + 2].key then 2 * i + 1 else 2 * i + 2
  }

  function SiftDown(s: seq<Node>, i: nat): (r: seq<Node>)
    ensures |r| == |s|
    decreases |s| - i
  {
    if 2 * i + 2 < |s| then
      var c := LesserChild(s, i);
      if s[c].key < s[i].key then SiftDown(Swapped(s, i, c), c) else s
    else if 2 * i + 1 >= |s| then s
    else if s[2 * i + 1].key < s[i].key then Swapped(s, i, 2 * i + 1)
    else s
  }

  // ----- The sifts permute -----

  lemma SwappedKeepsBag(s: seq<Node>, i: nat, j: nat)
    requires i < |s| && j < |s|
    ensures multiset(Swapped(s, i, j)) == multiset(s)
  {
  }

  lemma {:induction false} SiftUpKeepsBag(s: seq<Node>, i: nat)
    requires i < |s|
    ensures multiset(SiftUp(s, i)) == multiset(s)
    decreases i
  {
    if i != 0 && s[Parent(i)].key > s[i].key {
      SwappedKeepsBag(s, i, Parent(i));
      SiftUpKeepsBag(Swapped(s, i, Parent(i)), Parent(i));
    }
  }

  lemma {:induction false} SiftDownKeepsBag(s: seq<Node>, i: nat)
    ensures multiset(SiftDown(s, i)) == multiset(s)
    decreases |s| - i
  {
    if 2 * i + 2 < |s| {
      var c := LesserChild(s, i);
      if s[c].key < s[i].key {
        SwappedKeepsBag(s, i, c);
        SiftDownKeepsBag(Swapped(s, i, c), c);
      }
    } else if 2 * i + 1 < |s| {
      SwappedKeepsBag(s, i, 2 * i + 1);
    }
  }

  // ----- Heap order -----

  predicate InOrder(s: seq<Node>, j: int)
    requires 1 <= j < |s|
  {
    s[Parent(j)].key <= s[j].key
  }

  predicate Heap(s: seq<Node>) {
    forall j :: 1 <= j < |s| ==> InOrder(s, j)
  }

  /** Only entry `i` may be below its parent, and its children respect that parent. */
  predicate HeapBut(s: seq<Node>, i: nat) {
    && (forall j :: 1 <= j < |s| && j != i ==> InOrder(s, j))
    && (forall j :: 1 <= j < |s| && 1 <= i && Parent(j) == i ==> s[Parent(i)].key <= s[j].key)
  }

  /** Only the children of entry `i` may be below it, and they respect its parent. */
  predicate HeapButBelow(s: seq<Node>, i: nat) {
    && (forall j :: 1 <= j < |s| && Parent(j) != i ==> InOrder(s, j))
    && (forall j :: 1 <= j < |s| && 1 <= i && Parent(j) == i ==> s[Parent(i)].key <= s[j].key)
  }

  lemma {:induction false} SiftUpRestores(s: seq<Node>, i: nat)
    requires i < |s| && HeapBut(s, i)
    ensures Heap(SiftUp(s, i))
    decreases i
  {
    if i != 0 && s[Parent(i)].key > s[i].key {
      var p := Parent(i);
      var s' := Swapped(s, i, p);
      forall j | 1 <= j < |s| && j != p ensures InOrder(s', j) {
        assert j != i ==> InOrder(s, j);
      }
      forall j | 1 <= j < |s'| && 1 <= p && Parent(j) == p ensures s'[Parent(p)].key <= s'[j].key {
        assert InOrder(s, p);
        assert j != i ==> InOrder(s, j);
      }
      SiftUpRestores(s', p);
    }
  }

  lemma LesserChildIsLeast(s: seq<Node>, i: nat)
    requires 2 * i + 2 < |s|
    ensures var c := LesserChild(s, i);
      1 <= c < |s| && Parent(c) == i && forall j :: 1 <= j < |s| && Parent(j) == i ==> s[c].key <= s[j].key
  {
  }

  /** No child below entry `i` means no disorder. */
  lemma NothingBelow(s: seq<Node>, i: nat)
    requires HeapButBelow(s, i) && forall j :: 1 <= j < |s| && Parent(j) == i ==> s[i].key <= s[j].key
    ensures Heap(s)
  {
  }

  lemma {:induction false} SiftDownRestores(s: seq<Node>, i: nat)
    requires HeapButBelow(s, i)
    ensures Heap(SiftDown(s, i))
    decreases |s| - i
  {
    if 2 * i + 2 < |s| {
      var c := LesserChild(s, i);
      LesserChildIsLeast(s, i);
      if s[c].key < s[i].key {
        SwapDownKeeps(s, i, c);
        SiftDownRestores(Swapped(s, i, c), c);
      } else {
        NothingBelow(s, i);
      }
    } else if 2 * i + 1 < |s| && s[2 * i + 1].key < s[i].key {
      SwapDownKeeps(s, i, 2 * i + 1);
      NothingBelow(Swapped(s, i, 2 * i + 1), 2 * i + 1);
    } else {
      NothingBelow(s, i);
    }
  }

  /** Swapping with the least child moves the only possible disorder to that child. */
  lemma SwapDownKeeps(s: seq<Node>, i: nat, c: nat)
    requires HeapButBelow(s, i) && 1 <= c < |s| && Parent(c) == i && s[c].key < s[i].key
    requires forall j :: 1 <= j < |s| && Parent(j) == i ==> s[c].key <= s[j].key
    ensures HeapButBelow(Swapped(s, i, c), c)
  {
    var s' := Swapped(s, i, c);
    forall j | 1 <= j < |s| && Parent(j) != c ensures InOrder(s', j) {
      assert Parent(j) != i ==> InOrder(s, j);
      assert j == i ==> s[Parent(i)].key <= s[c].key;
    }
    forall j | 1 <= j < |s'| && Parent(j) == c ensures s'[Parent(c)].key <= s'[j].key {
      assert InOrder(s, j);
    }
  }

  lemma {:induction false} RootIsLeast(s: seq<Node>, i: nat)
    requires Heap(s) && i < |s|
    ensures s[0].key <= s[i].key
    decreases i
  {
    if i > 0 {
      assert InOrder(s, i);
      RootIsLeast(s, Parent(i));
    }
  }

  // ----- Insert and pop -----

  /** The new entry is written past the end and sifted up before the size grows. */
  function Insert(s: seq<Node>, x: Node): (r: seq<Node>)
    ensures |r| == |s| + 1
  {
    SiftUp(s + [x], |s|)
  }

  /** What the array holds once the last entry replaced the root and the size shrank. */
  function LastToRoot(s: seq<Node>): (r: seq<Node>)
    requires s != []
    ensures |r| == |s| - 1
  {
    s[0 := s[|s| - 1]][..|s| - 1]
  }

  function Pop(s: seq<Node>): (r: seq<Node>)
    requires s != []
    ensures |r| == |s| - 1
  {
    SiftDown(LastToRoot(s), 0)
  }

  /** As bags, `s'` is `s` with one more `x`. */
  predicate OneMore(s: seq<Node>, x: Node, s': seq<Node>) {
    multiset(s') == multiset(s) + multiset{x}
  }

  predicate IsLeast(x: Node, s: seq<Node>) {
    forall i :: 0 <= i < |s| ==> x.key <= s[i].key
  }

  /** An insertion adds exactly its entry to the bag. */
  lemma InsertAddsOne(s: seq<Node>, x: Node)
    ensures OneMore(s, x, Insert(s, x))
  {
    SiftUpKeepsBag(s + [x], |s|);
  }

  /** A pop removes exactly the root from the bag. */
  lemma PopRemovesRoot(s: seq<Node>)
    requires s != []
    ensures OneMore(Pop(s), s[0], s)
  {
    var n := |s| - 1;
    SiftDownKeepsBag(LastToRoot(s), 0);
    if n == 0 {
      assert s == [s[0]] && LastToRoot(s) == [];
    } else {
      assert s == [s[0]] + s[1..n] + [s[n]];
      assert LastToRoot(s) == [s[n]] + s[1..n];
    }
  }

  lemma InsertKeepsHeap(s: seq<Node>, x: Node)
    requires Heap(s)
    ensures Heap(Insert(s, x))
  {
    var t := s + [x];
    forall j | 1 <= j < |t| && j != |s| ensures InOrder(t, j) {
      assert InOrder(s, j);
    }
    SiftUpRestores(t, |s|);
  }

  lemma PopKeepsHeap(s: seq<Node>)
    requires Heap(s) && s != []
    ensures Heap(Pop(s)) && IsLeast(s[0], s)
  {
    var moved := LastToRoot(s);
    forall j | 1 <= j < |moved| && Parent(j) != 0 ensures InOrder(moved, j) {
      assert InOrder(s, j);
    }
    SiftDownRestores(moved, 0);
    forall i | 0 <= i < |s| ensures s[0].key <= s[i].key {
      RootIsLeast(s, i);
    }
  }

  // ----- Equal times -----

  lemma FourInserted(a: Node, b: Node, c: Node, d: Node)
    requires a.key == b.key == c.key == d.key
    ensures Insert([], a) == [a] && Insert([a], b) == [a, b] && Insert([a, b], c) == [a, b, c]
    ensures Insert([a, b, c], d) == [a, b, c, d]
  {
  }

  lemma FourPopped(a: Node, b: Node, c: Node, d: Node)
    requires a.key == b.key == c.key == d.key
    ensures Pop([a, b, c, d]) == [d, b, c] && Pop([d, b, c]) == [c, b] && Pop([c, b]) == [b] && Pop([b]) == []
  {
    assert LastToRoot([a, b, c, d]) == [d, b, c] && LastToRoot([d, b, c]) == [c, b];
    assert LastToRoot([c, b]) == [b] && LastToRoot([b]) == [];
  }

  /** Events of equal time do not come out in the order in which they went in: of four inserted in a row,
      the first is served first and then the last, the third and the second. */
  lemma EqualTimesReorder(a: Node, b: Node, c: Node, d: Node)
    requires a.key == b.key == c.key == d.key
    ensures var s := Insert(Insert(Insert(Insert([], a), b), c), d);
      s[0] == a && Pop(s)[0] == d && Pop(Pop(s))[0] == c && Pop(Pop(Pop(s)))[0] == b
  {
    FourInserted(a, b, c, d);
    FourPopped(a, b, c, d);
  }

  /** Of two equal children below a greater entry the right one moves up. */
  lemma RightChildOnTie(a: Node, b: Node, c: Node, d: Node)
    requires b.key == c.key < d.key
    ensures Pop([a, b, c, d]) == [c, b, d]
  {
    assert LastToRoot([a, b, c, d]) == [d, b, c];
    assert Swapped([d, b, c], 0, 2) == [c, b, d];
    assert SiftDown([c, b, d], 2) == [c, b, d];
  }

  // ----- Cost -----

  /** floor(log2(n)) for positive `n`. */
  function Log2(n: nat): nat {
    if n <= 1 then 0 else 1 + Log2(n / 2)
  }

  lemma {:induction false} Log2Monotone(m: nat, n: nat)
    requires m <= n
    ensures Log2(m) <= Log2(n)
    decreases n
  {
    if m > 1 { Log2Monotone(m / 2, n / 2); }
  }

  function UpSwaps(s: seq<Node>, i: nat): nat
    requires i < |s|
    decreases i
  {
    if i != 0 && s[Parent(i)].key > s[i].key then 1 + UpSwaps(Swapped(s, i, Parent(i)), Parent(i)) else 0
  }

  function DownSwaps(s: seq<Node>, i: nat): nat
    decreases |s| - i
  {
    if 2 * i + 2 < |s| then
      var c := LesserChild(s, i);
      if s[c].key < s[i].key then 1 + DownSwaps(Swapped(s, i, c), c) else 0
    else if 2 * i + 1 < |s| && s[2 * i + 1].key < s[i].key then 1
    else 0
  }

  /** An insertion swaps at most once per level above the new entry. */
  lemma {:induction false} UpSwapsBound(s: seq<Node>, i: nat)
    requires i < |s|
    ensures UpSwaps(s, i) <= Log2(i + 1)
    decreases i
  {
    if i != 0 && s[Parent(i)].key > s[i].key {
      UpSwapsBound(Swapped(s, i, Parent(i)), Parent(i));
      assert Parent(i) + 1 == (i + 1) / 2;
    }
  }

  /** A pop swaps at most once per level below the root. */
  lemma {:induction false} DownSwapsBound(s: seq<Node>, i: nat)
    requires i < |s|
    ensures DownSwaps(s, i) + Log2(i + 1) <= Log2(|s|)
    decreases |s| - i
  {
    Log2Monotone(i + 1, |s|);
    if 2 * i + 2 < |s| {
      var c := LesserChild(s, i);
      if s[c].key < s[i].key {
        DownSwapsBound(Swapped(s, i, c), c);
        assert (c + 1) / 2 == i + 1;
      }
    } else if 2 * i + 1 < |s| {
      Log2Monotone(2 * i + 2, |s|);
      assert (2 * i + 2) / 2 == i + 1;
    }
  }

  // ----- Every operation sequence refines a bag that serves its least -----

  datatype Op = Put(node: Node) | Take

  /** No `Take` meets an empty heap of `n` entries. */
  predicate NeverEmpty(n: nat, ops: seq<Op>)
    decreases |ops|
  {
    if ops == [] then true
    else if ops[0].Put? then NeverEmpty(n + 1, ops[1..])
    else n > 0 && NeverEmpty(n - 1, ops[1..])
  }

  function RunHeap(s: seq<Node>, ops: seq<Op>): (seq<Node>, seq<Node>)
    requires NeverEmpty(|s|, ops)
    decreases |ops|
  {
    if ops == [] then (s, [])
    else if ops[0].Put? then RunHeap(Insert(s, ops[0].node), ops[1..])
    else
      var (final, served) := RunHeap(Pop(s), ops[1..]);
      (final, [s[0]] + served)
  }

  /** The reference: a bag in which each `Take` serves some entry of least key. */
  predicate ServesLeast(bag: multiset<Node>, ops: seq<Op>, served: seq<Node>, final: multiset<Node>)
    decreases |ops|
  {
    if ops == [] then served == [] && final == bag
    else if ops[0].Put? then ServesLeast(bag + multiset{ops[0].node}, ops[1..], served, final)
    else
      && served != [] && served[0] in bag
      && (forall x <- bag :: served[0].key <= x.key)
      && ServesLeast(bag - multiset{served[0]}, ops[1..], served[1..], final)
  }

  lemma {:induction false} HeapRefinesBag(s: seq<Node>, ops: seq<Op>)
    requires Heap(s) && NeverEmpty(|s|, ops)
    ensures var (final, served) := RunHeap(s, ops);
      Heap(final) && ServesLeast(multiset(s), ops, served, multiset(final))
    decreases |ops|
  {
    if ops == [] {
    } else if ops[0].Put? {
      InsertKeepsHeap(s, ops[0].node);
      InsertAddsOne(s, ops[0].node);
      HeapRefinesBag(Insert(s, ops[0].node), ops[1..]);
    } else {
      PopKeepsHeap(s);
      PopRemovesRoot(s);
      assert multiset(Pop(s)) == multiset(s) - multiset{s[0]};
      HeapRefinesBag(Pop(s), ops[1..]);
      var (final, served) := RunHeap(Pop(s), ops[1..]);
      forall x <- multiset(s) ensures s[0].key <= x.key {
        var i :| 0 <= i < |s| && s[i] == x;
      }
      assert ([s[0]] + served)[1..] == served;
    }
  }

  function Takes(n: nat): (ops: seq<Op>)
    ensures |ops| == n && forall j :: 0 <= j < n ==> ops[j] == Take
  {
    seq(n, _ => Take)
  }

  function Puts(xs: seq<Node>): (ops: seq<Op>)
    ensures |ops| == |xs| && forall j :: 0 <= j < |xs| ==> ops[j] == Put(xs[j])
  {
    seq(|xs|, j requires 0 <= j < |xs| => Put(xs[j]))
  }

  lemma {:induction false} PutsThenTakesFit(n: nat, xs: seq<Node>, m: nat)
    requires m <= n + |xs|
    ensures NeverEmpty(n, Puts(xs) + Takes(m))
    decreases |xs| + m
  {
    var ops := Puts(xs) + Takes(m);
    if xs != [] {
      assert ops[1..] == Puts(xs[1..]) + Takes(m);
      PutsThenTakesFit(n + 1, xs[1..], m);
    } else if m > 0 {
      assert ops[1..] == Puts(xs) + Takes(m - 1);
      PutsThenTakesFit(n - 1, xs, m - 1);
    }
  }

  predicate SortedByKey(xs: seq<Node>) {
    forall i, j :: 0 <= i < j < |xs| ==> xs[i].key <= xs[j].key
  }

  /** Serving a bag to the end yields all of it in key order. */
  lemma {:induction false} ServingSorts(bag: multiset<Node>, ops: seq<Op>, served: seq<Node>, final: multiset<Node>)
    requires ServesLeast(bag, ops, served, final)
    requires forall j :: 0 <= j < |ops| ==> ops[j] == Take
    requires |ops| == |bag|
    ensures SortedByKey(served) && multiset(served) == bag && final == multiset{}
    decreases |ops|
  {
    if ops != [] {
      var rest := bag - multiset{served[0]};
      ServingSorts(rest, ops[1..], served[1..], final);
      LeastFirstSorts(served, bag);
    }
  }

  lemma LeastFirstSorts(served: seq<Node>, bag: multiset<Node>)
    requires served != [] && served[0] in bag && (forall x <- bag :: served[0].key <= x.key)
    requires SortedByKey(served[1..]) && multiset(served[1..]) == bag - multiset{served[0]}
    ensures SortedByKey(served) && multiset(served) == bag
  {
    var rest := served[1..];
    assert served == [served[0]] + rest;
    forall i, j | 0 <= i < j < |served| ensures served[i].key <= served[j].key {
      assert served[j] == rest[j - 1];
      if i == 0 {
        assert rest[j - 1] in multiset(rest);
      } else {
        assert served[i] == rest[i - 1];
      }
    }
  }

  lemma {:induction false} PuttingFills(bag: multiset<Node>, xs: seq<Node>, more: seq<Op>,
                                        served: seq<Node>, final: multiset<Node>)
    requires ServesLeast(bag, Puts(xs) + more, served, final)
    ensures ServesLeast(bag + multiset(xs), more, served, final)
    decreases |xs|
  {
    var ops := Puts(xs) + more;
    if xs == [] {
      assert ops == more && bag + multiset(xs) == bag;
    } else {
      assert ops[1..] == Puts(xs[1..]) + more;
      PuttingFills(bag + multiset{xs[0]}, xs[1..], more, served, final);
      assert xs == [xs[0]] + xs[1..];
      assert bag + multiset{xs[0]} + multiset(xs[1..]) == bag + multiset(xs);
    }
  }

  /** Inserting any entries and popping until empty returns a permutation of them in key order. */
  lemma InsertThenPopSorts(xs: seq<Node>)
    ensures NeverEmpty(0, Puts(xs) + Takes(|xs|))
    ensures var (final, served) := RunHeap([], Puts(xs) + Takes(|xs|));
      final == [] && SortedByKey(served) && multiset(served) == multiset(xs)
  {
    var ops := Puts(xs) + Takes(|xs|);
    PutsThenTakesFit(0, xs, |xs|);
    var (final, served) := RunHeap([], ops);
    HeapRefinesBag([], ops);
    PuttingFills(multiset{}, xs, Takes(|xs|), served, multiset(final));
    assert multiset{} + multiset(xs) == multiset(xs);
    ServingSorts(multiset(xs), Takes(|xs|), served, multiset(final));
    assert |multiset(final)| == |final|;
  }
}
