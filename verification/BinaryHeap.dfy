/** The binary min-heap of src/binary_heap.c.

    The first half of the module says, on sequences, what adding and popping mean and proves that
    these sequences are priority queues.  The second half is the C code: an array that grows by
    doubling, sifted in place.  `BinaryHeap.MoveDown` reads one slot past the live region, as the
    original does, and is proved equal to `SiftDown`, which sees the live region only. */
module BinaryHeaps {
  import opened Sequences
  import opened Wrappers

  datatype Kvp<V> = Kvp(key: int, value: V)

  // An element of the C array; None is a pointer that has not been written yet.
  type Slot<V> = Option<Kvp<V>>

  function Parent(node: nat): nat
    requires node > 0
  {
    (node - 1) / 2
  }

  function LeftChild(node: nat): nat { 2 * node + 1 }

  function RightChild(node: nat): nat { 2 * node + 2 }

  // ---------- What the operations mean, on the sequence of live nodes ----------

  ghost predicate IsHeap<V>(s: seq<Kvp<V>>) {
    forall i {:trigger Parent(i)} :: 0 < i < |s| ==> s[Parent(i)].key <= s[i].key
  }

  function Swapped<T>(s: seq<T>, i: nat, j: nat): (r: seq<T>)
    requires i < |s| && j < |s|
    ensures |r| == |s|
  {
    s[i := s[j]][j := s[i]]
  }

  function SiftUp<V>(s: seq<Kvp<V>>, i: nat): (r: seq<Kvp<V>>)
    requires i < |s|
    ensures |r| == |s|
    decreases i
  {
    if i == 0 || s[i].key >= s[Parent(i)].key then s
    else SiftUp(Swapped(s, i, Parent(i)), Parent(i))
  }

  // The child a sifted node is compared with: the right one only if it is live and smaller.
  function SmallerChild<V>(s: seq<Kvp<V>>, i: nat): nat
    requires LeftChild(i) < |s|
  {
    if RightChild(i) < |s| && s[LeftChild(i)].key > s[RightChild(i)].key then RightChild(i) else LeftChild(i)
  }

  function SiftDown<V>(s: seq<Kvp<V>>, i: nat): (r: seq<Kvp<V>>)
    ensures |r| == |s|
    decreases |s| - i
  {
    if LeftChild(i) >= |s| then s
    else
      var c := SmallerChild(s, i);
      if s[i].key <= s[c].key then s else SiftDown(Swapped(s, i, c), c)
  }

  function Added<V>(s: seq<Kvp<V>>, n: Kvp<V>): seq<Kvp<V>> {
    SiftUp(s + [n], |s|)
  }

  // What is left after the root has been popped.
  function Popped<V>(s: seq<Kvp<V>>): (r: seq<Kvp<V>>)
    requires |s| > 0
    ensures |r| == |s| - 1
  {
    if |s| == 1 then [] else SiftDown(s[..|s| - 1][0 := s[|s| - 1]], 0)
  }

  // ---------- The heap property is kept ----------

  // Sound except that s[i] may be smaller than its parent.
  ghost predicate HeapButUp<V>(s: seq<Kvp<V>>, i: nat) {
    && i < |s|
    && (forall j {:trigger Parent(j)} :: 0 < j < |s| && j != i ==> s[Parent(j)].key <= s[j].key)
    && (i > 0 ==> forall j {:trigger Parent(j)} :: 0 < j < |s| && Parent(j) == i ==> s[Parent(i)].key <= s[j].key)
  }

  // Sound except that s[i] may be larger than its children.
  ghost predicate HeapButDown<V>(s: seq<Kvp<V>>, i: nat) {
    && (forall j {:trigger Parent(j)} :: 0 < j < |s| && Parent(j) != i ==> s[Parent(j)].key <= s[j].key)
    && (0 < i < |s| ==> forall j {:trigger Parent(j)} :: 0 < j < |s| && Parent(j) == i ==> s[Parent(i)].key <= s[j].key)
  }

  lemma {:induction false} SiftUpRestores<V>(s: seq<Kvp<V>>, i: nat)
    requires HeapButUp(s, i)
    ensures IsHeap(SiftUp(s, i))
    decreases i
  {
    if i > 0 && s[i].key < s[Parent(i)].key {
      var p := Parent(i);
      var t := Swapped(s, i, p);
      assert p > 0 ==> s[Parent(p)].key <= s[p].key;
      SiftUpRestores(t, p);
    }
  }

  lemma {:induction false} SiftDownRestores<V>(s: seq<Kvp<V>>, i: nat)
    requires HeapButDown(s, i)
    ensures IsHeap(SiftDown(s, i))
    decreases |s| - i
  {
    if LeftChild(i) < |s| {
      var c := SmallerChild(s, i);
      assert Parent(c) == i;
      if s[i].key > s[c].key {
        var t := Swapped(s, i, c);
        forall j | 0 < j < |t| && Parent(j) != c
          ensures t[Parent(j)].key <= t[j].key
        {
          if Parent(j) == i {
            assert j == LeftChild(i) || j == RightChild(i);
          }
        }
        forall j | 0 < j < |t| && Parent(j) == c
          ensures t[Parent(c)].key <= t[j].key
        {
          assert s[Parent(j)].key <= s[j].key;
        }
        SiftDownRestores(t, c);
      }
    }
    forall j | 0 < j < |s| && Parent(j) == i && (LeftChild(i) < |s| ==> s[i].key <= s[SmallerChild(s, i)].key)
      ensures s[i].key <= s[j].key
    {
      assert j == LeftChild(i) || j == RightChild(i);
    }
  }

  lemma {:induction false} SiftUpPermutes<V>(s: seq<Kvp<V>>, i: nat)
    requires i < |s|
    ensures multiset(SiftUp(s, i)) == multiset(s)
    decreases i
  {
    if i > 0 && s[i].key < s[Parent(i)].key {
      SiftUpPermutes(Swapped(s, i, Parent(i)), Parent(i));
    }
  }

  lemma {:induction false} SiftDownPermutes<V>(s: seq<Kvp<V>>, i: nat)
    ensures multiset(SiftDown(s, i)) == multiset(s)
    decreases |s| - i
  {
    if LeftChild(i) < |s| && s[i].key > s[SmallerChild(s, i)].key {
      SiftDownPermutes(Swapped(s, i, SmallerChild(s, i)), SmallerChild(s, i));
    }
  }

  lemma {:induction false} RootIsMinimum<V>(s: seq<Kvp<V>>, i: nat)
    requires IsHeap(s) && i < |s|
    ensures s[0].key <= s[i].key
    decreases i
  {
    if i > 0 {
      RootIsMinimum(s, Parent(i));
    }
  }

  lemma AddedIsHeap<V>(s: seq<Kvp<V>>, n: Kvp<V>)
    requires IsHeap(s)
    ensures IsHeap(Added(s, n))
    ensures multiset(Added(s, n)) == multiset(s) + multiset{n}
  {
    var t := s + [n];
    forall j | 0 < j < |t| && j != |s|
      ensures t[Parent(j)].key <= t[j].key
    {
      assert t[j] == s[j] && t[Parent(j)] == s[Parent(j)];
    }
    SiftUpRestores(t, |s|);
    SiftUpPermutes(t, |s|);
  }

  lemma PoppedIsHeap<V>(s: seq<Kvp<V>>)
    requires IsHeap(s) && |s| > 0
    ensures IsHeap(Popped(s))
    ensures multiset(Popped(s)) + multiset{s[0]} == multiset(s)
    ensures forall n :: n in s ==> s[0].key <= n.key
  {
    forall n | n in s
      ensures s[0].key <= n.key
    {
      var i :| 0 <= i < |s| && s[i] == n;
      RootIsMinimum(s, i);
    }
    var last := |s| - 1;
    assert s == s[..last] + [s[last]];
    if |s| > 1 {
      assert s[..last] == [s[0]] + s[1..last];
      var t := s[..last][0 := s[last]];
      assert t == [s[last]] + s[1..last];
      forall j | 0 < j < |t| && Parent(j) != 0
        ensures t[Parent(j)].key <= t[j].key
      {
        assert t[j] == s[j] && t[Parent(j)] == s[Parent(j)];
      }
      SiftDownRestores(t, 0);
      SiftDownPermutes(t, 0);
    }
  }

  // ---------- Draining ----------

  function Drained<V>(s: seq<Kvp<V>>): seq<Kvp<V>>
    decreases |s|
  {
    if s == [] then [] else [s[0]] + Drained(Popped(s))
  }

  function AddedAll<V>(s: seq<Kvp<V>>, ns: seq<Kvp<V>>): seq<Kvp<V>>
    decreases |ns|
  {
    if ns == [] then s else AddedAll(Added(s, ns[0]), ns[1..])
  }

  lemma {:induction false} AddedAllIsHeap<V>(s: seq<Kvp<V>>, ns: seq<Kvp<V>>)
    requires IsHeap(s)
    ensures IsHeap(AddedAll(s, ns))
    ensures multiset(AddedAll(s, ns)) == multiset(s) + multiset(ns)
    decreases |ns|
  {
    if ns != [] {
      AddedIsHeap(s, ns[0]);
      AddedAllIsHeap(Added(s, ns[0]), ns[1..]);
      assert ns == [ns[0]] + ns[1..];
    }
  }

  ghost predicate Sorted<V>(s: seq<Kvp<V>>) {
    forall i, j :: 0 <= i < j < |s| ==> s[i].key <= s[j].key
  }

  lemma SortedCons<V>(n: Kvp<V>, s: seq<Kvp<V>>, all: multiset<Kvp<V>>)
    requires Sorted(s) && multiset(s) + multiset{n} == all
    requires forall m :: m in all ==> n.key <= m.key
    ensures Sorted([n] + s) && multiset([n] + s) == all
  {
    forall j | 0 <= j < |s|
      ensures n.key <= s[j].key
    {
      assert s[j] in multiset(s);
    }
  }

  lemma {:induction false} DrainIsSortedPermutation<V>(s: seq<Kvp<V>>)
    requires IsHeap(s)
    ensures Sorted(Drained(s)) && multiset(Drained(s)) == multiset(s)
    decreases |s|
  {
    if s != [] {
      PoppedIsHeap(s);
      DrainIsSortedPermutation(Popped(s));
      SortedCons(s[0], Drained(Popped(s)), multiset(s));
    }
  }

  // Whatever was added, in whatever order, drains as a sorted permutation of it.
  lemma HeapSorts<V>(ns: seq<Kvp<V>>)
    ensures multiset(Drained(AddedAll([], ns))) == multiset(ns)
    ensures Sorted(Drained(AddedAll([], ns)))
  {
    AddedAllIsHeap([], ns);
    DrainIsSortedPermutation(AddedAll([], ns));
  }

  // ---------- The values alone ----------

  function Values<V>(s: seq<Kvp<V>>): (r: seq<V>)
    ensures |r| == |s| && forall i :: 0 <= i < |s| ==> r[i] == s[i].value
  {
    seq(|s|, i requires 0 <= i < |s| => s[i].value)
  }

  lemma {:induction false} ValuesPermute<V>(s: seq<Kvp<V>>, t: seq<Kvp<V>>)
    requires multiset(s) == multiset(t)
    ensures multiset(Values(s)) == multiset(Values(t))
    decreases |s|
  {
    hide Values;
    if s == [] {
      assert |multiset(t)| == 0;
    } else {
      assert s[0] in multiset(t);
      var j :| 0 <= j < |t| && t[j] == s[0];
      WithoutMultiset(s, 0);
      WithoutMultiset(t, j);
      Cancel(multiset(Without(s, 0)), multiset(Without(t, j)), multiset{s[0]});
      ValuesPermute(Without(s, 0), Without(t, j));
      WithoutMultiset(Values(s), 0);
      WithoutMultiset(Values(t), j);
      assert Values(Without(s, 0)) == Without(Values(s), 0);
      assert Values(Without(t, j)) == Without(Values(t), j);
    }
  }

  // ---------- Whole runs ----------

  function Grown(capacity: nat, space: nat): nat {
    if capacity < space then (if capacity * 2 > space then capacity * 2 else space) else capacity
  }

  datatype Op<V> = Push(node: Kvp<V>) | Pop

  /** What a run of operations on a new heap has led to: the live nodes, everything pushed and
      popped, and of the array its capacity, the slots realloc has copied so far, and the most nodes
      ever held. */
  datatype Run<V> = Run(live: seq<Kvp<V>>, pushed: seq<Kvp<V>>, popped: seq<Kvp<V>>,
                        capacity: nat, moved: nat, peak: nat)

  function After<V>(ops: seq<Op<V>>): Run<V>
    decreases |ops|
  {
    if ops == [] then Run([], [], [], 0, 0, 0)
    else
      var r := After(ops[..|ops| - 1]);
      match ops[|ops| - 1]
      case Pop =>
        if r.live == [] then r else r.(live := Popped(r.live), popped := r.popped + [r.live[0]])
      case Push(node) =>
        var capacity := Grown(r.capacity, |r.live| + 1);
        Run(Added(r.live, node), r.pushed + [node], r.popped, capacity,
            if capacity == r.capacity then r.moved else r.moved + r.capacity,
            if |r.live| + 1 > r.peak then |r.live| + 1 else r.peak)
  }

  // Under any mix of operations the array is a heap, and nothing is lost, invented or popped twice.
  lemma {:induction false} RunKeepsHeap<V>(ops: seq<Op<V>>)
    ensures IsHeap(After(ops).live)
    ensures multiset(After(ops).live) + multiset(After(ops).popped) == multiset(After(ops).pushed)
    decreases |ops|
  {
    if ops != [] {
      var before := ops[..|ops| - 1];
      RunKeepsHeap(before);
      var r := After(before);
      match ops[|ops| - 1]
      case Push(node) =>
        AddedIsHeap(r.live, node);
      case Pop =>
        if r.live != [] {
          PoppedIsHeap(r.live);
        }
    }
  }

  // A pop after any run returns a node with the least key of all the nodes held at that moment.
  lemma PopReturnsMinimum<V>(ops: seq<Op<V>>)
    requires After(ops).live != []
    ensures var r := After(ops); var r' := After(ops + [Pop]);
            exists n :: r'.popped == r.popped + [n] && n in r.live && forall m :: m in r.live ==> n.key <= m.key
  {
    RunKeepsHeap(ops);
    PoppedIsHeap(After(ops).live);
    assert (ops + [Pop])[..|ops|] == ops;
    assert After(ops + [Pop]).popped == After(ops).popped + [After(ops).live[0]];
  }

  lemma {:induction false} GrowthIsAmortised<V>(ops: seq<Op<V>>)
    ensures var r := After(ops);
            && |r.live| <= r.peak <= |r.pushed| && r.peak <= r.capacity
            && (|r.pushed| > 0 ==> r.moved < r.capacity < 2 * r.peak && r.moved < 2 * |r.pushed|)
            && (|r.pushed| == 0 ==> r.capacity == r.moved == 0)
    decreases |ops|
  {
    if ops != [] {
      GrowthIsAmortised(ops[..|ops| - 1]);
    }
  }

  // ---------- The C code ----------

  class BinaryHeap<V> {
    var capacity: nat
    var used: nat
    var slots: array<Slot<V>>
    // The nodes in the first `used` slots.
    ghost var live: seq<Kvp<V>>

    // The first |s| slots hold exactly s.
    ghost predicate Holds(s: seq<Kvp<V>>)
      reads this, slots
    {
      |s| <= slots.Length && forall i :: 0 <= i < |s| ==> slots[i] == Some(s[i])
    }

    ghost predicate Valid()
      reads this, slots
    {
      slots.Length == capacity && |live| == used && Holds(live) && IsHeap(live)
    }

    constructor ()
      ensures Valid() && live == [] && capacity == 0 && fresh(slots)
    {
      capacity := 0;
      used := 0;
      slots := new Slot<V>[0];
      live := [];
    }

    method EnsureSpace(space: nat)
      requires Valid()
      modifies this`slots, this`capacity
      ensures Valid()
      ensures capacity == Grown(old(capacity), space)
      ensures slots == old(slots) || fresh(slots)
    {
      if capacity < space {
        var newSpace := if capacity * 2 > space then capacity * 2 else space;
        var a := new Slot<V>[newSpace](_ => None);
        forall i | 0 <= i < capacity {
          a[i] := slots[i];
        }
        slots := a;
        capacity := newSpace;
      }
    }

    method MoveUp(targetPos: nat)
      requires |live| == targetPos + 1 && Holds(live)
      modifies slots, this`live
      ensures live == SiftUp(old(live), targetPos) && Holds(live)
    {
      var pos := targetPos;
      while pos > 0
        invariant 0 <= pos <= targetPos && |live| == targetPos + 1 && Holds(live)
        invariant SiftUp(live, pos) == SiftUp(old(live), targetPos)
      {
        var targetNode := slots[pos];
        var parentPos := Parent(pos);
        var parentNode := slots[parentPos];
        if targetNode.value.key >= parentNode.value.key {
          break;
        }
        slots[pos], slots[parentPos] := parentNode, targetNode;
        live := Swapped(live, pos, parentPos);
        pos := parentPos;
      }
    }

    method Add(key: int, value: V)
      requires Valid()
      modifies this, slots
      ensures Valid() && live == Added(old(live), Kvp(key, value))
      ensures capacity == Grown(old(capacity), |old(live)| + 1)
      ensures multiset(live) == multiset(old(live)) + multiset{Kvp(key, value)}
      ensures slots == old(slots) || fresh(slots)
    {
      AddedIsHeap(live, Kvp(key, value));
      EnsureSpace(used + 1);
      slots[used] := Some(Kvp(key, value));
      live := live + [Kvp(key, value)];
      MoveUp(used);
      used := used + 1;
    }

    // A read of the sift: of a live slot, or of the one behind them.
    method Peek(pos: nat) returns (node: Slot<V>)
      requires pos <= used < slots.Length
      ensures node == slots[pos]
    {
      node := slots[pos];
    }

    /** The source's condition `child_left_pos > heap->used - 1` never holds inside the loop; what
        keeps the read of the right child sound when `used` is even is that slot `used` still holds
        the node being sifted.  Every read goes through `Peek`. */
    method MoveDown(targetPos: nat)
      requires |live| == used < slots.Length && Holds(live)
      requires targetPos < used && slots[targetPos] == slots[used]
      modifies slots, this`live
      ensures live == SiftDown(old(live), targetPos) && Holds(live)
      ensures slots[used] == old(slots[used])
    {
      var pos := targetPos;
      while pos < used / 2
        invariant 0 <= pos < used == |live| && Holds(live)
        invariant slots[pos] == slots[used] == old(slots[used])
        invariant SiftDown(live, pos) == SiftDown(old(live), targetPos)
        decreases used - pos
      {
        var targetNode := Peek(pos);
        var leftPos := LeftChild(pos);
        var leftNode := Peek(leftPos);
        var rightPos := RightChild(pos);
        var rightNode := Peek(rightPos);
        // The sentinel: a right child that is not live is the node being sifted.
        assert rightPos == used ==> rightNode == targetNode;
        var childPos;
        var childNode;
        if leftPos > used - 1 || leftNode.value.key > rightNode.value.key {
          childPos, childNode := rightPos, rightNode;
        } else {
          childPos, childNode := leftPos, leftNode;
        }
        if targetNode.value.key <= childNode.value.key {
          break;
        }
        assert rightPos == used ==> childPos == leftPos;
        slots[pos], slots[childPos] := childNode, targetNode;
        live := Swapped(live, pos, childPos);
        pos := childPos;
      }
    }

    // None is the C function's 0, with its out-parameters left alone.
    method TryPop() returns (popped: Option<Kvp<V>>)
      requires Valid()
      modifies this`used, this`live, slots
      ensures Valid()
      ensures popped.None? <==> old(live) == []
      ensures popped.None? ==> live == []
      ensures popped.Some? ==> popped.value == old(live)[0] && live == Popped(old(live))
      ensures popped.Some? ==> forall n :: n in old(live) ==> popped.value.key <= n.key
      ensures popped.Some? ==> multiset(live) + multiset{popped.value} == multiset(old(live))
    {
      popped := None;
      if used > 0 {
        PoppedIsHeap(live);
        popped := slots[0];
        used := used - 1;
        live := live[..used];
        if used > 0 {
          slots[0] := slots[used];
          live := live[0 := old(live)[used]];
          MoveDown(0);
        }
      }
    }
  }
}
