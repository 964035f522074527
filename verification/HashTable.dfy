/** scrap/hash_table.c as it is written: an array of singly linked chains.

    Key and data of an entry never change once it is made, so they are constants of the node and the
    contents of the table follow from the ghost sequence of chains alone. */
module HashTables {
  import opened HashTableSpec
  import opened Sequences
  import opened Wrappers

  class Node<D> {
    const key: string
    const data: D
    var next: Node?<D>

    constructor (key: string, data: D, next: Node?<D>)
      ensures this.key == key && this.data == data && this.next == next
    {
      this.key, this.data, this.next := key, data, next;
    }
  }

  ghost predicate Linked<D>(head: Node?<D>, c: seq<Node<D>>)
    reads c
  {
    && head == (if c == [] then null else c[0])
    && (forall i {:trigger c[i].next} :: 0 <= i < |c| - 1 ==> c[i].next == c[i + 1])
    && (c != [] ==> c[|c| - 1].next == null)
    && (forall i, j :: 0 <= i < j < |c| ==> c[i] != c[j])
  }

  ghost function Entries<D>(c: seq<Node<D>>): (es: seq<Entry<D>>)
    ensures |es| == |c| && forall i :: 0 <= i < |c| ==> es[i] == Entry(c[i].key, c[i].data)
  {
    seq(|c|, i requires 0 <= i < |c| => Entry(c[i].key, c[i].data))
  }

  ghost function Contents<D>(cs: seq<seq<Node<D>>>): (bs: Buckets<D>)
    ensures |bs| == |cs| && forall b :: 0 <= b < |cs| ==> bs[b] == Entries(cs[b])
  {
    seq(|cs|, b requires 0 <= b < |cs| => Entries(cs[b]))
  }

  ghost function Nodes<D>(cs: seq<seq<Node<D>>>): set<Node<D>> {
    set b, i | 0 <= b < |cs| && 0 <= i < |cs[b]| :: cs[b][i]
  }

  // Each chain hangs from its slot of the array and holds only nodes that hash there.
  ghost predicate Chained<D>(entries: array<Node?<D>>, cs: seq<seq<Node<D>>>)
    reads entries, Nodes(cs)
  {
    && entries.Length == |cs|
    && (forall b :: 0 <= b < |cs| ==> Linked(entries[b], cs[b]))
    && (forall b, n :: 0 <= b < |cs| && n in cs[b] ==> Slot(n.key, |cs|) == b)
  }

  method AddToEntries<D>(entries: array<Node?<D>>, ghost cs: seq<seq<Node<D>>>, key: string, data: D)
    returns (ghost cs': seq<seq<Node<D>>>)
    requires Chained(entries, cs) && |cs| > 0
    modifies entries
    ensures Chained(entries, cs')
    ensures Contents(cs') == AddTo(Contents(cs), Entry(key, data))
    ensures fresh(Nodes(cs') - Nodes(cs))
  {
    hide Slot;
    var s := Slot(key, entries.Length);
    assert Linked(entries[s], cs[s]);
    var e := new Node(key, data, entries[s]);
    entries[s] := e;
    assert Linked(entries[s], [e] + cs[s]);
    cs' := cs[s := [e] + cs[s]];
    assert Entries(cs'[s]) == [Entry(key, data)] + Entries(cs[s]);
  }

  lemma HeadIsNull<D>(head: Node?<D>, c: seq<Node<D>>)
    requires Linked(head, c)
    ensures head == null ==> c == []
    ensures head != null ==> c != [] && head == c[0]
  {
  }

  // What removing the first node with a key means for the contents.
  lemma WithoutFirstMatch<D>(cs: seq<seq<Node<D>>>, s: nat, k: nat, key: string)
    requires s < |cs| && k < |cs[s]| && cs[s][k].key == key && forall j :: 0 <= j < k ==> cs[s][j].key != key
    ensures Contents(cs[s := Without(cs[s], k)]) == Contents(cs)[s := DelIn(Contents(cs)[s], key)]
    ensures FindIn(Contents(cs)[s], key).Some?
  {
    DelInAt(Entries(cs[s]), key, k);
    assert Entries(Without(cs[s], k)) == Without(Entries(cs[s]), k);
  }

  // calloc: no chain yet in any slot.
  method Calloc<D>(n: nat) returns (entries: array<Node?<D>>, ghost cs: seq<seq<Node<D>>>)
    ensures fresh(entries) && Chained(entries, cs) && entries.Length == n
    ensures Contents(cs) == Empty<D>(n) && Nodes(cs) == {}
  {
    entries := new Node?<D>[n](_ => null);
    cs := seq(n, _ => []);
    assert Contents(cs) == Empty<D>(n);
  }

  // The inner loop of hash_table_resize: every entry of a chain is added again.
  method CopyChain<D>(head: Node?<D>, ghost c: seq<Node<D>>, entries: array<Node?<D>>, ghost cs: seq<seq<Node<D>>>)
    returns (copied: nat, ghost cs': seq<seq<Node<D>>>)
    requires Linked(head, c) && Chained(entries, cs) && (c != [] ==> |cs| > 0)
    modifies entries
    ensures Chained(entries, cs') && copied == |c|
    ensures Contents(cs') == AddAll(Contents(cs), Entries(c))
    ensures fresh(Nodes(cs') - Nodes(cs))
  {
    hide Slot, AddTo, Chained;
    var e := head;
    copied, cs' := 0, cs;
    while e != null
      invariant 0 <= copied <= |c| && e == if copied < |c| then c[copied] else null
      invariant Chained(entries, cs') && |cs'| == |cs| && fresh(Nodes(cs') - Nodes(cs))
      invariant Contents(cs') == AddAll(Contents(cs), Entries(c)[..copied])
      modifies entries
      decreases |c| - copied
    {
      assert e == c[copied];
      AddAllConcat(Contents(cs), Entries(c)[..copied], [Entry(e.key, e.data)]);
      assert Entries(c)[..copied] + [Entry(e.key, e.data)] == Entries(c)[..copied + 1];
      AddAllOne(Contents(cs'), Entry(e.key, e.data));
      cs' := AddToEntries(entries, cs', e.key, e.data);
      e, copied := e.next, copied + 1;
    }
    assert Entries(c)[..copied] == Entries(c);
  }

  class HashTable<D> {
    var size: nat
    var count: nat
    var maxLoad: real
    var minLoad: real
    var entries: array<Node?<D>>
    ghost var chains: seq<seq<Node<D>>>

    ghost function Model(): Table<D>
      reads this
    {
      Table(Contents(chains), count, maxLoad, minLoad)
    }

    ghost predicate Valid()
      reads this, entries, Nodes(chains)
    {
      size == entries.Length && Chained(entries, chains) && Counted(Model())
    }

    constructor (maxLoad: real, minLoad: real)
      ensures Valid() && Model() == New(maxLoad, minLoad) && fresh(entries) && fresh(Nodes(chains))
    {
      size := INITIAL_SIZE;
      count := 0;
      this.maxLoad, this.minLoad := maxLoad, minLoad;
      var a;
      ghost var cs;
      a, cs := Calloc<D>(INITIAL_SIZE);
      entries, chains := a, cs;
      FlatEmpty<D>(INITIAL_SIZE);
    }

    method Find(key: string) returns (found: Option<D>)
      requires Valid() && size > 0
      ensures found == HashTableSpec.Find(Model(), key)
    {
      var e := entries[Slot(key, size)];
      ghost var c, i := chains[Slot(key, size)], 0;
      assert Linked(e, c);
      while e != null
        invariant 0 <= i <= |c| && e == if i < |c| then c[i] else null
        invariant FindIn(Entries(c), key) == FindIn(Entries(c)[i..], key)
        decreases |c| - i
      {
        if e.key == key {
          return Some(e.data);
        }
        assert e == c[i];
        e, i := e.next, i + 1;
      }
      found := None;
    }

    method UnlinkFirst(s: nat, e: Node<D>)
      requires Chained(entries, chains) && s < |chains| && entries[s] == e
      modifies this`chains, entries
      ensures Chained(entries, chains) && chains == old(chains[s := Without(chains[s], 0)])
    {
      ghost var c := chains[s];
      assert Linked(e, c);
      entries[s] := e.next;
      chains := chains[s := Without(c, 0)];
      assert Linked(entries[s], Without(c, 0));
    }

    method UnlinkAfter(s: nat, e: Node<D>, ghost i: nat)
      requires Chained(entries, chains) && s < |chains| && i + 1 < |chains[s]| && e == chains[s][i]
      modifies this`chains, e
      ensures Chained(entries, chains) && chains == old(chains[s := Without(chains[s], i + 1)])
    {
      hide Slot;
      ghost var c := chains[s];
      assert Linked(entries[s], c);
      ApartFrom(s, e);
      e.next := e.next.next;
      chains := chains[s := Without(c, i + 1)];
      assert Linked(entries[s], Without(c, i + 1));
    }

    // A node is in the chain of its slot and in no other.
    lemma ApartFrom(s: nat, e: Node<D>)
      requires Chained(entries, chains) && s < |chains| && e in chains[s]
      ensures forall b :: 0 <= b < |chains| && b != s ==> e !in chains[b]
    {
      forall b | 0 <= b < |chains| && e in chains[b]
        ensures b == s
      {
        assert Slot(e.key, |chains|) == b;
      }
    }

    // The entry before the first one with this key, looking from the second entry on.
    method FindBefore(key: string, head: Node<D>, ghost c: seq<Node<D>>) returns (prev: Node?<D>, ghost i: nat)
      requires Chained(entries, chains) && Linked(head, c) && head.key != key
      ensures Chained(entries, chains)
      ensures prev != null ==> i + 1 < |c| && prev == c[i] && c[i + 1].key == key && forall j :: 0 <= j <= i ==> c[j].key != key
      ensures prev == null ==> forall j :: 0 <= j < |c| ==> c[j].key != key
    {
      prev, i := head, 0;
      while prev.next != null
        invariant 0 <= i < |c| && prev == c[i] && prev != null
        invariant forall j :: 0 <= j <= i ==> c[j].key != key
        decreases |c| - i
      {
        if prev.next.key == key {
          return;
        }
        prev, i := prev.next, i + 1;
      }
      prev := null;
    }

    // The chain loses the first node with this key, if it has one.
    method Unlink(key: string) returns (rc: bool)
      requires size == entries.Length && Chained(entries, chains) && size > 0
      modifies this`chains, entries, Nodes(chains)
      ensures Chained(entries, chains)
      ensures var bs, s := Contents(old(chains)), Slot(key, size);
              && |bs| == size && (rc <==> FindIn(bs[s], key).Some?)
              && Contents(chains) == if rc then bs[s := DelIn(bs[s], key)] else bs
    {
      hide *;
      var s := Slot(key, size);
      HeadOf(s);
      var e := entries[s];
      ghost var c := chains[s];
      HeadIsNull(e, c);
      if e == null {
        FindInNone(Entries(c), key);
        return false;
      }
      if e.key == key {
        WithoutFirstMatch(chains, s, 0, key);
        UnlinkFirst(s, e);
        return true;
      }
      var prev;
      ghost var i;
      prev, i := FindBefore(key, e, c);
      if prev == null {
        FindInNone(Entries(c), key);
        return false;
      }
      WithoutFirstMatch(chains, s, i + 1, key);
      IsNode(s, i);
      UnlinkAfter(s, prev, i);
      rc := true;
    }

    lemma IsNode(s: nat, i: nat)
      requires s < |chains| && i < |chains[s]|
      ensures chains[s][i] in Nodes(chains)
    {
    }

    // Bucket s of the array is empty exactly when its chain is; otherwise it starts the chain.
    lemma HeadOf(s: nat)
      requires Chained(entries, chains) && s < entries.Length
      ensures |chains| == entries.Length && Linked(entries[s], chains[s])
    {
    }

    method Resize(newSize: nat)
      requires size == entries.Length && Chained(entries, chains) && Counted(Model())
      requires Flat(Model().buckets) != [] ==> newSize > 0
      modifies this`size, this`entries, this`chains
      ensures size == entries.Length && Chained(entries, chains)
      ensures Contents(chains) == Resized(Contents(old(chains)), newSize)
      ensures fresh(entries) && fresh(Nodes(chains))
    {
      hide Slot, AddTo, Linked, AddAll, Flat;
      var bigger;
      ghost var cs;
      bigger, cs := Calloc<D>(newSize);
      ghost var bs := Contents(chains);
      var copied := 0;
      Nothing<D>(Empty(newSize));
      assert bs[..0] == [];
      for i := 0 to size
        modifies bigger
        invariant fresh(bigger) && fresh(Nodes(cs)) && bigger.Length == newSize && Chained(bigger, cs)
        invariant Flat(bs[..i]) != [] ==> newSize > 0
        invariant Contents(cs) == AddAll(Empty(newSize), Flat(bs[..i]))
        invariant copied == |Flat(bs[..i])|
      {
        assert Linked(entries[i], chains[i]);
        FlatSnoc(bs, i);
        if bs[i] != [] {
          FlatNonEmpty(bs, i);
        }
        AddAllConcat(Empty(newSize), Flat(bs[..i]), bs[i]);
        var n;
        n, cs := CopyChain(entries[i], chains[i], bigger, cs);
        copied := copied + n;
      }
      assert bs[..size] == bs;
      assert copied == count;
      size, entries, chains := newSize, bigger, cs;
    }

    lemma SizeIsLength()
      requires size == entries.Length && Chained(entries, chains)
      ensures |chains| == size
    {
    }

    method Add(key: string, data: D)
      requires Valid() && size > 0
      modifies this, entries
      ensures Valid() && Model() == HashTableSpec.Add(old(Model()), key, data)
      ensures fresh(Nodes(chains) - old(Nodes(chains))) && (entries == old(entries) || fresh(entries))
    {
      hide Slot, Contents, Nodes, Flat;
      SizeIsLength();
      AddCounted(Model(), key, data);
      AddToPermutes(Contents(chains), Entry(key, data));
      chains := AddToEntries(entries, chains, key, data);
      count := count + 1;
      if LoadFactor(count, size) > maxLoad {
        Resize(size * 2);
      }
    }

    method Del(key: string) returns (rc: bool)
      requires Valid() && size > 0 && !NoRoom(Model(), key)
      modifies this, entries, Nodes(chains)
      ensures Valid() && Model() == HashTableSpec.Del(old(Model()), key)
      ensures rc <==> HashTableSpec.Find(old(Model()), key).Some?
    {
      hide Slot, Contents, Nodes, Flat, DelIn, FindIn, Resized, Linked, Entries, LoadFactor;
      SizeIsLength();
      ghost var t := Model();
      DelCounted(t, key);
      rc := Unlink(key);
      if rc {
        FoundIsCounted(t, key);
        UnlinkedIsCounted(t, key);
        count := count - 1;
        assert Model() == Unlinked(t, key);
        if LoadFactor(count, size) < minLoad {
          Resize(size / 2);
        }
      } else {
        assert Model() == t;
      }
    }
  }

  /** hash_table_iterator_t: `slot` and `entry` are the current entry, unless `end`. */
  class Iterator<D> {
    const tbl: HashTable<D>
    var slot: nat
    var entry: Node?<D>
    var end: bool
    // The position of `entry` in its chain.
    ghost var at: nat

    ghost predicate Valid()
      reads this, tbl, tbl.entries, Nodes(tbl.chains)
    {
      && tbl.Valid()
      && (!end ==> slot < |tbl.chains| && at < |tbl.chains[slot]| && entry == tbl.chains[slot][at])
    }

    // The entries from the current one on, in the order the iterator visits them.
    ghost function Remaining(): seq<Entry<D>>
      requires Valid()
      reads this, tbl, tbl.entries, Nodes(tbl.chains)
    {
      if end then [] else RestFrom(Contents(tbl.chains), slot, at)
    }

    constructor (tbl: HashTable<D>)
      requires tbl.Valid() && tbl.size > 0
      ensures Valid() && this.tbl == tbl && Remaining() == Iterated(tbl.Model().buckets)
    {
      this.tbl := tbl;
      slot, entry, end, at := 0, null, true, 0;
      new;
      FindFirst();
    }

    method FindFirst()
      requires tbl.Valid() && tbl.size > 0 && end
      modifies this
      ensures Valid() && Remaining() == Iterated(tbl.Model().buckets)
    {
      hide Slot, Flat, RestFrom, Iterated, EmptyBetween;
      var e, s := FirstHead();
      IteratedFrom(Contents(tbl.chains), s - 1);
      if s < tbl.size {
        slot, entry, end, at := s - 1, e, false, 0;
      } else {
        end := true;
      }
    }

    // The loop of find_first, which leaves s one past the bucket it stopped at.
    method FirstHead() returns (e: Node?<D>, s: nat)
      requires tbl.Valid() && tbl.size > 0
      ensures 1 <= s <= tbl.size == |tbl.chains| && EmptyBetween(Contents(tbl.chains), 0, s - 1)
      ensures s < tbl.size ==> tbl.chains[s - 1] != [] && e == tbl.chains[s - 1][0]
    {
      hide Slot, Flat, Linked, Contents, Nodes, Counted;
      ghost var bs := Contents(tbl.chains);
      s := 1;
      e := tbl.entries[0];
      tbl.HeadOf(0);
      HeadIsNull(e, tbl.chains[0]);
      while e == null && s < tbl.size
        invariant 1 <= s <= tbl.size == |tbl.chains|
        invariant e == null ==> tbl.chains[s - 1] == []
        invariant e != null ==> tbl.chains[s - 1] != [] && e == tbl.chains[s - 1][0]
        invariant EmptyBetween(bs, 0, s - 1)
      {
        assert Entries(tbl.chains[s - 1]) == [];
        EmptyBetweenNext(bs, 0, s - 1);
        e := tbl.entries[s];
        tbl.HeadOf(s);
        HeadIsNull(e, tbl.chains[s]);
        s := s + 1;
      }
    }

    // The next entry, if there is one; the rest of the visit is unchanged by the step.
    method Next() returns (more: bool)
      requires Valid() && !end
      modifies this
      ensures Valid() && more == !end
      ensures old(Remaining()) == [Entry(old(entry).key, old(entry).data)] + Remaining()
    {
      hide Slot, Flat, RestFrom;
      ghost var bs := Contents(tbl.chains);
      SlotInTable();
      tbl.HeadOf(slot);
      if entry.next != null {
        RestNext(bs, slot, at);
        entry, at := entry.next, at + 1;
        return true;
      }
      var s := slot + 1;
      var e: Node?<D> := null;
      while s < tbl.size && e == null
        invariant slot < s <= tbl.size && EmptyBetween(bs, slot + 1, s)
        invariant e != null ==> s < tbl.size && Linked(e, tbl.chains[s])
        modifies {}
        decreases tbl.size - s, e == null
      {
        e := tbl.entries[s];
        tbl.HeadOf(s);
        if e == null {
          s := s + 1;
        }
      }
      RestSkips(bs, slot, at, s);
      if s < tbl.size {
        slot, entry, at := s, e, 0;
        more := true;
      } else {
        end := true;
        more := false;
      }
    }

    lemma SlotInTable()
      requires Valid()
      ensures tbl.size == |tbl.chains|
    {
    }

    lemma AtEntryOrEnd()
      requires Valid()
      ensures end <==> Remaining() == []
      ensures !end ==> entry != null
    {
    }
  }

  // A client's whole iteration.
  method Enumerate<D>(tbl: HashTable<D>) returns (out: seq<Entry<D>>)
    requires tbl.Valid() && tbl.size > 0
    ensures out == Iterated(tbl.Model().buckets)
  {
    hide *;
    var iter := new Iterator(tbl);
    out := [];
    while !iter.end
      invariant iter.Valid() && iter.tbl == tbl && fresh(iter)
      invariant out + iter.Remaining() == Iterated(tbl.Model().buckets)
      decreases |iter.Remaining()|
    {
      ghost var rest := iter.Remaining();
      iter.AtEntryOrEnd();
      out := out + [Entry(iter.entry.key, iter.entry.data)];
      var more := iter.Next();
      assert out + iter.Remaining() == out[..|out| - 1] + rest;
    }
    iter.AtEntryOrEnd();
  }
}
