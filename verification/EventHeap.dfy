/** The event heap as the imperative component: a growing array whose entries are swapped in
    place by recursive sifts. */
module EventHeap {
  import opened Words
  import opened HeapOrder

  function Pow2(n: nat): nat {
    if n == 0 then 1 else 2 * Pow2(n - 1)
  }

  const STARTING_SIZE: nat := 511

  class Heap {
    var size: nat
    var data: array<Node>      // its length is the heap's private_size
    ghost var expansions: nat
    ghost var peak: nat        // the largest size so far
    ghost var swaps: nat

    ghost function Contents(): (s: seq<Node>)
      reads this, data
      requires size <= data.Length
    {
      data[..size]
    }

    /** The capacity is 2^(9+k) - 1 after k expansions, and no expansion was needless. */
    ghost predicate Valid()
      reads this, data
    {
      && size <= peak <= data.Length
      && data.Length == Pow2(9 + expansions) - 1
      && (expansions > 0 ==> Pow2(8 + expansions) <= peak)
      && HeapOrder.Heap(Contents())
    }

    constructor ()
      ensures Valid() && fresh(data) && Contents() == [] && data.Length == STARTING_SIZE
      ensures expansions == swaps == 0
    {
      size, peak, expansions, swaps := 0, 0, 0, 0;
      data := new Node[STARTING_SIZE](_ => Node(0, -1));
      new;
      assert Pow2(9) == 2 * 2 * 2 * Pow2(6) && Pow2(6) == 2 * 2 * 2 * Pow2(3);
    }

    predicate IsEmpty()
      reads this
    {
      size == 0
    }

    /** The least key, or -1 when empty. */
    method GetMinKey() returns (key: int)
      requires Valid()
      ensures Contents() == [] ==> key == -1
      ensures Contents() != [] ==> Contents()[0].key == key && IsLeast(Contents()[0], Contents())
    {
      if size == 0 {
        return -1;
      }
      PopKeepsHeap(Contents());
      key := data[0].key;
    }

    /** The event of least key, or none when empty. */
    method PeekMinData() returns (event: Option<nat>)
      requires Valid()
      ensures event.None? <==> Contents() == []
      ensures event.Some? ==> Contents()[0].data == event.value && IsLeast(Contents()[0], Contents())
    {
      if size == 0 {
        return None;
      }
      PopKeepsHeap(Contents());
      event := Some(data[0].data);
    }

    method Swap(i: nat, j: nat)
      requires i < data.Length && j < data.Length
      modifies this`swaps, data
      ensures data[..] == Swapped(old(data[..]), i, j) && swaps == old(swaps) + 1
    {
      var key := data[i].key;
      data[i] := data[i].(key := data[j].key);
      data[j] := data[j].(key := key);
      var d := data[i].data;
      data[i] := data[i].(data := data[j].data);
      data[j] := data[j].(data := d);
      swaps := swaps + 1;
    }

    method UpHeap(i: nat)
      requires i < data.Length
      modifies this`swaps, data
      ensures data[..] == SiftUp(old(data[..]), i)
      ensures swaps == old(swaps) + UpSwaps(old(data[..]), i)
      decreases i
    {
      if i == 0 {
        return;
      }
      var parent := (i - 1) / 2;
      if data[parent].key > data[i].key {
        Swap(i, parent);
        UpHeap(parent);
      }
    }

    method DownHeap(i: nat)
      requires size <= data.Length
      modifies this`swaps, data
      ensures data[..] == SiftDown(old(data[..size]), i) + old(data[size..])
      ensures swaps == old(swaps) + DownSwaps(old(data[..size]), i)
      decreases size - i
    {
      ghost var s := data[..];
      ghost var live := data[..size];
      var right := (i + 1) * 2;
      var left := i * 2 + 1;
      if right < size {
        var minKey := if data[left].key < data[right].key then left else right;
        assert minKey == LesserChild(live, i);
        if data[minKey].key < data[i].key {
          Swap(i, minKey);
          SwappedPrefix(s, i, minKey, size);
          assert data[..size] == Swapped(live, i, minKey) && data[size..] == s[size..];
          assert SiftDown(live, i) == SiftDown(Swapped(live, i, minKey), minKey);
          DownHeap(minKey);
        } else {
          assert SiftDown(live, i) == live;
        }
      } else if left >= size {
        assert SiftDown(live, i) == live;
        return;
      } else {
        if data[left].key < data[i].key {
          Swap(i, left);
          SwappedPrefix(s, i, left, size);
          assert SiftDown(live, i) == Swapped(live, i, left);
        } else {
          assert SiftDown(live, i) == live;
        }
      }
    }

    /** Doubling plus one: every entry keeps its position. */
    method Expand()
      requires data.Length == Pow2(9 + expansions) - 1
      modifies this`data, this`expansions
      ensures fresh(data) && expansions == old(expansions) + 1
      ensures data.Length == Pow2(9 + expansions) - 1
      ensures data.Length == 2 * old(data.Length) + 1
      ensures data[..old(data.Length)] == old(data[..])
    {
      var newSize := data.Length * 2 + 1;
      var newData := new Node[newSize](_ => Node(0, -1));
      forall i | 0 <= i < data.Length {
        newData[i] := data[i];
      }
      data := newData;
      expansions := expansions + 1;
    }

    /** Writes the entry past the end, sifts it up, and only then counts it. */
    method Append(event: nat, key: int)
      requires size < data.Length
      modifies this`size, this`swaps, data
      ensures size == old(size) + 1
      ensures Contents() == HeapOrder.Insert(old(data[..size]), Node(event, key))
      ensures swaps <= old(swaps) + Log2(size)
    {
      ghost var s := data[..size];
      data[size] := data[size].(key := key);
      data[size] := data[size].(data := event);
      ghost var full := data[..];
      assert full[..size + 1] == s + [Node(event, key)];
      UpHeap(size);
      SiftUpOfPrefix(full, size, size + 1);
      UpSwapsBound(full, size);
      size := size + 1;
    }

    /** Room for one more entry: only a full array is expanded. */
    method Reserve()
      requires Valid()
      modifies this`data, this`expansions
      ensures size < data.Length && data.Length == Pow2(9 + expansions) - 1
      ensures data == old(data) || fresh(data)
      ensures Contents() == old(Contents())
      ensures expansions == old(expansions) + (if old(size) == old(data.Length) then 1 else 0)
      ensures expansions > 0 ==> Pow2(8 + expansions) <= (if size + 1 > peak then size + 1 else peak)
    {
      ghost var s := Contents();
      if size == data.Length {
        Expand();
      }
      assert data[..size] == s;
    }

    /** Adds exactly one entry, expanding only a full array, with at most floor(log2(size)) swaps. */
    method Insert(event: nat, key: int)
      requires Valid()
      modifies this, data
      ensures Valid() && (data == old(data) || fresh(data))
      ensures Contents() == HeapOrder.Insert(old(Contents()), Node(event, key))
      ensures OneMore(old(Contents()), Node(event, key), Contents())
      ensures expansions == old(expansions) + (if old(size) == old(data.Length) then 1 else 0)
      ensures swaps <= old(swaps) + Log2(size)
    {
      ghost var s := Contents();
      Reserve();
      Append(event, key);
      peak := if size > peak then size else peak;
      InsertKeepsHeap(s, Node(event, key));
      InsertAddsOne(s, Node(event, key));
    }

    /** Removes and returns exactly one entry, of least key, with at most floor(log2(size)) swaps. */
    method PopMinData() returns (event: nat, key: int)
      requires Valid() && size > 0
      modifies this, data
      ensures Valid() && data == old(data)
      ensures Node(event, key) == old(Contents())[0] && Contents() == Pop(old(Contents()))
      ensures OneMore(Contents(), Node(event, key), old(Contents()))
      ensures IsLeast(Node(event, key), old(Contents()))
      ensures swaps <= old(swaps) + Log2(old(size))
    {
      PopKeepsHeap(Contents());
      PopRemovesRoot(Contents());
      event, key := TakeRoot();
    }

    method TakeRoot() returns (event: nat, key: int)
      requires 0 < size <= data.Length
      modifies this`size, this`swaps, data
      ensures size == old(size) - 1 && Node(event, key) == old(data[..])[0]
      ensures Contents() == Pop(old(data[..size]))
      ensures swaps <= old(swaps) + Log2(old(size))
    {
      ghost var s := data[..size];
      var last := size - 1;
      event := data[0].data;
      key := data[0].key;
      data[0] := data[0].(data := data[last].data);
      data[0] := data[0].(key := data[last].key);
      size := size - 1;
      assert data[..size] == LastToRoot(s);
      DownHeap(0);
      if size > 0 {
        DownSwapsBound(LastToRoot(s), 0);
        Log2Monotone(size, size + 1);
      }
    }
  }

  lemma SwappedPrefix(s: seq<Node>, i: nat, j: nat, n: nat)
    requires i < n && j < n && n <= |s|
    ensures Swapped(s, i, j)[..n] == Swapped(s[..n], i, j)
    ensures Swapped(s, i, j)[n..] == s[n..]
    ensures Swapped(s, i, j) == Swapped(s[..n], i, j) + s[n..]
  {
  }

  lemma {:induction false} SiftUpOfPrefix(s: seq<Node>, i: nat, n: nat)
    requires i < n <= |s|
    ensures SiftUp(s, i)[..n] == SiftUp(s[..n], i)
    decreases i
  {
    if i != 0 && s[Parent(i)].key > s[i].key {
      var p := Parent(i);
      assert Swapped(s, i, p)[..n] == Swapped(s[..n], i, p);
      SiftUpOfPrefix(Swapped(s, i, p), p, n);
    }
  }
}
