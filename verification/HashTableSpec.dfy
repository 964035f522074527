/** What the hash table of scrap/hash_table.c does, on the contents of its buckets.

    A bucket is a sequence of entries in chain order.  The theorems here are about these values;
    HashTable.dfy proves that the linked nodes follow them. */
module HashTableSpec {
  import opened Sequences
  import opened Wrappers

  datatype Entry<D> = Entry(key: string, data: D)

  type Buckets<D> = seq<seq<Entry<D>>>

  datatype Table<D> = Table(buckets: Buckets<D>, count: nat, maxLoad: real, minLoad: real) {
    function Size(): nat { |buckets| }
  }

  const INITIAL_SIZE := 16
  const TWO_32 := 0x1_0000_0000

  // djb2, in 32-bit arithmetic.
  function Hash(key: string): nat {
    HashFrom(5381, key)
  }

  function HashFrom(h: nat, key: string): nat
    decreases |key|
  {
    if key == "" then h else HashFrom((h * 33 + key[0] as int) % TWO_32, key[1..])
  }

  function Pow33(k: nat): nat {
    if k == 0 then 1 else 33 * Pow33(k - 1)
  }

  // Each character times 33 to the power of how many come after it.
  function Sum33(key: string): nat
    decreases |key|
  {
    if key == "" then 0 else key[0] as int * Pow33(|key| - 1) + Sum33(key[1..])
  }

  lemma Multiples(a: int, m: int)
    ensures (a + 0x1_0000_0000 * m) % 0x1_0000_0000 == a % 0x1_0000_0000
  {}

  lemma {:induction false} HashFromIsSum(h: nat, key: string)
    requires h < TWO_32
    ensures HashFrom(h, key) == (h * Pow33(|key|) + Sum33(key)) % 0x1_0000_0000
    decreases |key|
  {
    if key != "" {
      var c, p, s := key[0] as int, Pow33(|key| - 1), Sum33(key[1..]);
      var all := h * 33 + c;
      var h', q := all % TWO_32, all / TWO_32;
      HashFromIsSum(h', key[1..]);
      calc {
        h * Pow33(|key|) + Sum33(key);
        h * (33 * p) + (c * p + s);
        { Distribute(h, c, p); }
        all * p + s;
        { assert all == h' + TWO_32 * q; CarryOver(h', q, p); }
        (h' * p + s) + TWO_32 * (q * p);
      }
      Multiples(h' * p + s, q * p);
    }
  }

  lemma Distribute(h: int, c: int, p: int)
    ensures h * (33 * p) + c * p == (h * 33 + c) * p
  {}

  lemma CarryOver(h: int, q: int, p: int)
    ensures (h + TWO_32 * q) * p == h * p + TWO_32 * (q * p)
  {}

  function Slot(key: string, size: nat): (s: nat)
    requires size > 0
    ensures s < size
  {
    Hash(key) % size
  }

  // The hash of a key in closed form, and its bucket.
  lemma HashIsSum(key: string, size: nat)
    ensures Hash(key) == (5381 * Pow33(|key|) + Sum33(key)) % 0x1_0000_0000
    ensures size > 0 ==> Slot(key, size) == (5381 * Pow33(|key|) + Sum33(key)) % 0x1_0000_0000 % size
  {
    HashFromIsSum(5381, key);
  }

  function Flat<D>(bs: Buckets<D>): seq<Entry<D>> {
    if bs == [] then [] else bs[0] + Flat(bs[1..])
  }

  function Empty<D>(size: nat): (bs: Buckets<D>)
    ensures |bs| == size
  {
    seq(size, _ => [])
  }

  // ---------- The operations ----------

  // A new entry goes to the front of its chain.
  function AddTo<D>(bs: Buckets<D>, e: Entry<D>): (r: Buckets<D>)
    requires |bs| > 0
    ensures |r| == |bs|
  {
    var s := Slot(e.key, |bs|);
    bs[s := [e] + bs[s]]
  }

  function AddAll<D>(bs: Buckets<D>, es: seq<Entry<D>>): (r: Buckets<D>)
    requires es != [] ==> |bs| > 0
    ensures |r| == |bs|
    decreases |es|
  {
    if es == [] then bs else AddAll(AddTo(bs, es[0]), es[1..])
  }

  // Every entry is added again, in bucket and chain order, to new buckets.
  function Resized<D>(bs: Buckets<D>, size: nat): (r: Buckets<D>)
    requires Flat(bs) != [] ==> size > 0
    ensures |r| == size
  {
    AddAll(Empty(size), Flat(bs))
  }

  function FindIn<D>(chain: seq<Entry<D>>, key: string): Option<D> {
    if chain == [] then None
    else if chain[0].key == key then Some(chain[0].data)
    else FindIn(chain[1..], key)
  }

  function DelIn<D>(chain: seq<Entry<D>>, key: string): seq<Entry<D>> {
    if chain == [] then []
    else if chain[0].key == key then chain[1..]
    else [chain[0]] + DelIn(chain[1..], key)
  }

  function LoadFactor(count: nat, size: nat): real
    requires size > 0
  {
    count as real / size as real
  }

  function Find<D>(t: Table<D>, key: string): Option<D>
    requires t.Size() > 0
  {
    FindIn(t.buckets[Slot(key, t.Size())], key)
  }

  function Add<D>(t: Table<D>, key: string, data: D): Table<D>
    requires t.Size() > 0
  {
    var t' := t.(buckets := AddTo(t.buckets, Entry(key, data)), count := t.count + 1);
    if LoadFactor(t'.count, t'.Size()) > t.maxLoad then t'.(buckets := Resized(t'.buckets, t.Size() * 2)) else t'
  }

  predicate Shrinks<D>(t: Table<D>)
    requires t.Size() > 0
  {
    LoadFactor(t.count, t.Size()) < t.minLoad
  }

  function Unlinked<D>(t: Table<D>, key: string): Table<D>
    requires t.Size() > 0 && t.count > 0
  {
    var s := Slot(key, t.Size());
    t.(buckets := t.buckets[s := DelIn(t.buckets[s], key)], count := t.count - 1)
  }

  // Halving would leave entries and no bucket to put them in.
  predicate NoRoom<D>(t: Table<D>, key: string)
    requires t.Size() > 0
  {
    Find(t, key).Some? && t.Size() == 1 && t.count >= 2 && (t.count - 1) as real < t.minLoad
  }

  function Del<D>(t: Table<D>, key: string): Table<D>
    requires t.Size() > 0 && Counted(t) && !NoRoom(t, key)
  {
    if Find(t, key).None? then t
    else
      FoundIsCounted(t, key);
      var t' := Unlinked(t, key);
      UnlinkedIsCounted(t, key);
      if Shrinks(t') then t'.(buckets := Resized(t'.buckets, t.Size() / 2)) else t'
  }

  // ---------- Counting ----------

  predicate Counted<D>(t: Table<D>) {
    t.count == |Flat(t.buckets)|
  }

  lemma {:induction false} FlatUpdate<D>(bs: Buckets<D>, s: nat, chain: seq<Entry<D>>)
    requires s < |bs|
    ensures multiset(Flat(bs[s := chain])) + multiset(bs[s]) == multiset(Flat(bs)) + multiset(chain)
    ensures |Flat(bs[s := chain])| + |bs[s]| == |Flat(bs)| + |chain|
    decreases s
  {
    if s == 0 {
      assert bs[0 := chain][1..] == bs[1..];
    } else {
      var rest := bs[1..];
      FlatUpdate(rest, s - 1, chain);
      assert bs[s := chain][1..] == rest[s - 1 := chain] && bs[s := chain][0] == bs[0];
      var r, r' := Flat(rest), Flat(rest[s - 1 := chain]);
      assert Flat(bs[s := chain]) == bs[0] + r' && Flat(bs) == bs[0] + r;
      Regroup(multiset(bs[0]), multiset(r'), multiset(bs[s]), multiset(r), multiset(chain));
    }
  }

  lemma {:induction false} FlatConcat<D>(a: Buckets<D>, b: Buckets<D>)
    ensures Flat(a + b) == Flat(a) + Flat(b)
  {
    if a == [] {
      assert a + b == b;
    } else {
      FlatConcat(a[1..], b);
      calc {
        Flat(a + b);
        { assert (a + b)[0] == a[0] && (a + b)[1..] == a[1..] + b; }
        a[0] + Flat(a[1..] + b);
        a[0] + (Flat(a[1..]) + Flat(b));
        (a[0] + Flat(a[1..])) + Flat(b);
        Flat(a) + Flat(b);
      }
    }
  }

  lemma {:induction false} FlatEmpty<D>(size: nat)
    ensures Flat(Empty<D>(size)) == []
  {
    if size > 0 {
      assert Empty<D>(size)[1..] == Empty<D>(size - 1);
      FlatEmpty<D>(size - 1);
    }
  }

  lemma {:induction false} DelInRemovesOne<D>(chain: seq<Entry<D>>, key: string)
    ensures FindIn(chain, key).None? ==> DelIn(chain, key) == chain && forall e :: e in chain ==> e.key != key
    ensures FindIn(chain, key).Some? ==>
      multiset(DelIn(chain, key)) + multiset{Entry(key, FindIn(chain, key).value)} == multiset(chain)
      && |DelIn(chain, key)| + 1 == |chain|
  {
    if chain != [] {
      assert chain == [chain[0]] + chain[1..];
      if chain[0].key != key {
        DelInRemovesOne(chain[1..], key);
      }
    }
  }

  lemma FoundIsCounted<D>(t: Table<D>, key: string)
    requires t.Size() > 0 && Counted(t) && Find(t, key).Some?
    ensures t.count > 0
  {
    var s := Slot(key, t.Size());
    DelInRemovesOne(t.buckets[s], key);
    FlatUpdate(t.buckets, s, []);
  }

  lemma UnlinkedIsCounted<D>(t: Table<D>, key: string)
    requires t.Size() > 0 && Counted(t) && Find(t, key).Some? && t.count > 0
    ensures Counted(Unlinked(t, key))
    ensures var t' := Unlinked(t, key); Shrinks(t') && Flat(t'.buckets) != [] && t.Size() / 2 == 0 <==> NoRoom(t, key)
  {
    var s := Slot(key, t.Size());
    DelInRemovesOne(t.buckets[s], key);
    FlatUpdate(t.buckets, s, DelIn(t.buckets[s], key));
    var t' := Unlinked(t, key);
    if t.Size() == 1 {
      assert LoadFactor(t'.count, 1) == t'.count as real;
    }
  }

  lemma AddToPermutes<D>(bs: Buckets<D>, e: Entry<D>)
    requires |bs| > 0
    ensures multiset(Flat(AddTo(bs, e))) == multiset(Flat(bs)) + multiset{e}
    ensures |Flat(AddTo(bs, e))| == |Flat(bs)| + 1
  {
    var s := Slot(e.key, |bs|);
    FlatUpdate(bs, s, [e] + bs[s]);
    assert multiset([e] + bs[s]) == multiset{e} + multiset(bs[s]);
    Cancel(multiset(Flat(AddTo(bs, e))), multiset(Flat(bs)) + multiset{e}, multiset(bs[s]));
  }

  lemma {:induction false} AddAllPermutes<D>(bs: Buckets<D>, es: seq<Entry<D>>)
    requires es != [] ==> |bs| > 0
    ensures multiset(Flat(AddAll(bs, es))) == multiset(Flat(bs)) + multiset(es)
    ensures |Flat(AddAll(bs, es))| == |Flat(bs)| + |es|
    decreases |es|
  {
    if es != [] {
      AddToPermutes(bs, es[0]);
      AddAllPermutes(AddTo(bs, es[0]), es[1..]);
      assert es == [es[0]] + es[1..];
    }
  }

  // Resizing loses nothing, invents nothing and duplicates nothing.
  lemma ResizedPermutes<D>(bs: Buckets<D>, size: nat)
    requires Flat(bs) != [] ==> size > 0
    ensures multiset(Flat(Resized(bs, size))) == multiset(Flat(bs))
    ensures |Flat(Resized(bs, size))| == |Flat(bs)|
  {
    FlatEmpty<D>(size);
    assert multiset(Flat(Empty<D>(size))) == multiset{};
    AddAllPermutes(Empty(size), Flat(bs));
  }

  // ---------- The table is a map ----------

  /** The entries are exactly those of m, each key once, each in the bucket its hash says. */
  ghost predicate Represents<D>(bs: Buckets<D>, m: map<string, D>) {
    && (forall b :: 0 <= b < |bs| ==> ChainFor(bs[b], b, |bs|, m))
    && (|bs| > 0 ==> forall k :: k in m ==> FindIn(bs[Slot(k, |bs|)], k) == Some(m[k]))
    && (|bs| == 0 ==> m == map[])
  }

  ghost predicate ChainFor<D>(chain: seq<Entry<D>>, b: nat, size: nat, m: map<string, D>)
    requires b < size
  {
    && (forall e :: e in chain ==> e.key in m && m[e.key] == e.data && Slot(e.key, size) == b)
    && UniqueKeys(chain)
  }

  ghost predicate UniqueKeys<D>(chain: seq<Entry<D>>) {
    forall i, j :: 0 <= i < j < |chain| ==> chain[i].key != chain[j].key
  }

  lemma {:induction false} FindInIsMember<D>(chain: seq<Entry<D>>, key: string)
    ensures FindIn(chain, key).Some? ==> Entry(key, FindIn(chain, key).value) in chain
    ensures FindIn(chain, key).None? ==> forall e :: e in chain ==> e.key != key
  {
    if chain != [] && chain[0].key != key {
      FindInIsMember(chain[1..], key);
    }
  }

  // hash_table_find answers as the map does.
  lemma FindAgrees<D>(bs: Buckets<D>, m: map<string, D>, key: string)
    requires |bs| > 0 && Represents(bs, m)
    ensures FindIn(bs[Slot(key, |bs|)], key) == if key in m then Some(m[key]) else None
  {
    FindInIsMember(bs[Slot(key, |bs|)], key);
  }

  lemma AddToRepresents<D>(bs: Buckets<D>, m: map<string, D>, e: Entry<D>)
    requires |bs| > 0 && Represents(bs, m) && e.key !in m
    ensures Represents(AddTo(bs, e), m[e.key := e.data])
  {
    hide Slot;
    var s, bs' := Slot(e.key, |bs|), AddTo(bs, e);
    forall b | 0 <= b < |bs'|
      ensures ChainFor(bs'[b], b, |bs'|, m[e.key := e.data])
    {
      assert ChainFor(bs[b], b, |bs|, m);
      if b == s {
        UniqueCons(e, bs[b]);
      }
    }
  }

  lemma UniqueCons<D>(e: Entry<D>, rest: seq<Entry<D>>)
    ensures UniqueKeys([e] + rest) <==> UniqueKeys(rest) && forall x :: x in rest ==> x.key != e.key
  {
    var all := [e] + rest;
    if UniqueKeys(all) {
      forall x | x in rest
        ensures x.key != e.key
      {
        var i :| 0 <= i < |rest| && rest[i] == x;
        assert all[0].key != all[i + 1].key;
      }
      forall i, j | 0 <= i < j < |rest|
        ensures rest[i].key != rest[j].key
      {
        assert all[i + 1] == rest[i] && all[j + 1] == rest[j];
      }
    }
  }

  lemma {:induction false} DelInKeepsOthers<D>(chain: seq<Entry<D>>, key: string)
    requires UniqueKeys(chain)
    ensures UniqueKeys(DelIn(chain, key))
    ensures forall e :: e in DelIn(chain, key) ==> e in chain && e.key != key
  {
    if chain != [] {
      var e, rest := chain[0], chain[1..];
      assert chain == [e] + rest;
      UniqueCons(e, rest);
      if e.key != key {
        DelInKeepsOthers(rest, key);
        UniqueCons(e, DelIn(rest, key));
      }
    }
  }

  lemma {:induction false} DelInFindsOthers<D>(chain: seq<Entry<D>>, key: string, k: string)
    requires k != key
    ensures FindIn(DelIn(chain, key), k) == FindIn(chain, k)
  {
    if chain != [] && chain[0].key != key {
      DelInFindsOthers(chain[1..], key, k);
      assert DelIn(chain, key)[1..] == DelIn(chain[1..], key);
    }
  }

  lemma DelRepresents<D>(bs: Buckets<D>, m: map<string, D>, key: string)
    requires |bs| > 0 && Represents(bs, m)
    ensures var s := Slot(key, |bs|); Represents(bs[s := DelIn(bs[s], key)], m - {key})
  {
    hide Slot, DelIn, UniqueKeys;
    var s := Slot(key, |bs|);
    var bs', m' := bs[s := DelIn(bs[s], key)], m - {key};
    assert ChainFor(bs[s], s, |bs|, m);
    DelInKeepsOthers(bs[s], key);
    forall b | 0 <= b < |bs'|
      ensures ChainFor(bs'[b], b, |bs'|, m')
    {
      assert ChainFor(bs[b], b, |bs|, m);
      forall e: Entry<D> | e in bs'[b]
        ensures e.key in m' && m'[e.key] == e.data && Slot(e.key, |bs'|) == b
      {
        assert e in bs[b];
      }
    }
    forall k | k in m'
      ensures FindIn(bs'[Slot(k, |bs'|)], k) == Some(m'[k])
    {
      assert FindIn(bs[Slot(k, |bs|)], k) == Some(m[k]);
      DelInFindsOthers(bs[s], key, k);
    }
  }

  // ---------- Resizing keeps the map ----------

  // m is what these entries, with unique keys, amount to.
  ghost predicate Lists<D>(es: seq<Entry<D>>, m: map<string, D>) {
    && (forall e :: e in es ==> e.key in m && m[e.key] == e.data)
    && (forall k :: k in m ==> Entry(k, m[k]) in es)
    && UniqueKeys(es)
  }

  lemma {:induction false} InFlat<D>(bs: Buckets<D>, e: Entry<D>)
    ensures e in Flat(bs) <==> exists b :: 0 <= b < |bs| && e in bs[b]
  {
    if bs != [] {
      InFlat(bs[1..], e);
      if e in Flat(bs[1..]) {
        var b :| 0 <= b < |bs[1..]| && e in bs[1..][b];
        assert e in bs[b + 1];
      }
      if b :| 0 <= b < |bs| && e in bs[b] {
        if b > 0 {
          assert e in bs[1..][b - 1];
        }
      }
    }
  }

  // Keys differ between chains because their slots do.
  lemma {:induction false} FlatUnique<D>(bs: Buckets<D>, from: nat, size: nat)
    requires forall b :: 0 <= b < |bs| ==> UniqueKeys(bs[b])
    requires size > 0 && forall b, e :: 0 <= b < |bs| && e in bs[b] ==> Slot(e.key, size) == from + b
    ensures UniqueKeys(Flat(bs))
    decreases |bs|
  {
    if bs != [] {
      forall b, e | 0 <= b < |bs[1..]| && e in bs[1..][b]
        ensures Slot(e.key, size) == from + 1 + b
      {
        assert e in bs[b + 1];
      }
      FlatUnique(bs[1..], from + 1, size);
      var a, r := bs[0], Flat(bs[1..]);
      forall i, j | 0 <= i < |a| && 0 <= j < |r|
        ensures a[i].key != r[j].key
      {
        InFlat(bs[1..], r[j]);
        var b :| 0 <= b < |bs[1..]| && r[j] in bs[1..][b];
        assert r[j] in bs[b + 1] && a[i] in bs[0];
      }
    }
  }

  lemma RepresentsLists<D>(bs: Buckets<D>, m: map<string, D>)
    requires Represents(bs, m)
    ensures Lists(Flat(bs), m)
  {
    if |bs| > 0 {
      FlatUnique(bs, 0, |bs|);
      forall k | k in m
        ensures Entry(k, m[k]) in Flat(bs)
      {
        FindInIsMember(bs[Slot(k, |bs|)], k);
        InFlat(bs, Entry(k, m[k]));
      }
    }
    forall e | e in Flat(bs)
      ensures e.key in m && m[e.key] == e.data
    {
      InFlat(bs, e);
    }
  }

  lemma ListsTail<D>(es: seq<Entry<D>>, m: map<string, D>)
    requires Lists(es, m) && es != []
    ensures es[0].key in m && m[es[0].key] == es[0].data && Lists(es[1..], m - {es[0].key})
  {
    var e, rest := es[0], es[1..];
    assert es == [e] + rest;
    UniqueCons(e, rest);
    forall k | k in m - {e.key}
      ensures Entry(k, m[k]) in rest
    {
      assert Entry(k, m[k]) in es;
    }
  }

  lemma {:induction false} AddAllRepresents<D>(bs: Buckets<D>, m: map<string, D>, es: seq<Entry<D>>, all: map<string, D>)
    requires Represents(bs, m) && Lists(es, all) && m.Keys !! all.Keys && (es != [] ==> |bs| > 0)
    ensures Represents(AddAll(bs, es), m + all)
    decreases |es|
  {
    hide Slot, Represents, UniqueKeys, AddTo;
    if es == [] {
      assert m + all == m;
    } else {
      var e := es[0];
      ListsTail(es, all);
      AddToRepresents(bs, m, e);
      AddAllRepresents(AddTo(bs, e), m[e.key := e.data], es[1..], all - {e.key});
      assert m[e.key := e.data] + (all - {e.key}) == m + all;
    }
  }

  lemma EmptyRepresents<D>(size: nat)
    ensures Represents(Empty<D>(size), map[])
  {
  }

  lemma ResizedRepresents<D>(bs: Buckets<D>, m: map<string, D>, size: nat)
    requires Represents(bs, m) && (Flat(bs) != [] ==> size > 0)
    ensures Represents(Resized(bs, size), m)
  {
    hide Represents, Lists, AddAll, Flat, UniqueKeys, Empty;
    RepresentsLists(bs, m);
    EmptyRepresents<D>(size);
    AddAllRepresents(Empty(size), map[], Flat(bs), m);
    assert map[] + m == m;
  }

  // ---------- Every operation keeps the representation ----------

  lemma AddKeepsMap<D>(t: Table<D>, m: map<string, D>, key: string, data: D)
    requires t.Size() > 0 && Represents(t.buckets, m) && Counted(t) && key !in m
    ensures Represents(Add(t, key, data).buckets, m[key := data]) && Counted(Add(t, key, data))
    ensures Add(t, key, data).Size() > 0
  {
    var bs := AddTo(t.buckets, Entry(key, data));
    AddToRepresents(t.buckets, m, Entry(key, data));
    AddToPermutes(t.buckets, Entry(key, data));
    ResizedRepresents(bs, m[key := data], t.Size() * 2);
    ResizedPermutes(bs, t.Size() * 2);
  }

  lemma DelKeepsMap<D>(t: Table<D>, m: map<string, D>, key: string)
    requires t.Size() > 0 && Represents(t.buckets, m) && Counted(t) && !NoRoom(t, key)
    ensures Represents(Del(t, key).buckets, m - {key}) && Counted(Del(t, key))
    ensures Find(t, key).Some? <==> key in m
  {
    FindAgrees(t.buckets, m, key);
    if key in m {
      FoundIsCounted(t, key);
      var t' := Unlinked(t, key);
      UnlinkedIsCounted(t, key);
      DelRepresents(t.buckets, m, key);
      if Shrinks(t') {
        ResizedRepresents(t'.buckets, m - {key}, t.Size() / 2);
        ResizedPermutes(t'.buckets, t.Size() / 2);
      }
    } else {
      assert m - {key} == m;
    }
  }

  lemma {:induction false} CountIsSize<D>(es: seq<Entry<D>>, m: map<string, D>)
    requires Lists(es, m)
    ensures |es| == |m|
    decreases |es|
  {
    if es == [] {
      assert m.Keys == {};
    } else {
      var e := es[0];
      ListsTail(es, m);
      CountIsSize(es[1..], m - {e.key});
      assert m.Keys == (m - {e.key}).Keys + {e.key};
      assert |m.Keys| == |(m - {e.key}).Keys| + 1;
    }
  }

  // ---------- Facts the linked form needs ----------

  lemma {:induction false} DelInAt<D>(chain: seq<Entry<D>>, key: string, k: nat)
    requires k < |chain| && chain[k].key == key && forall j :: 0 <= j < k ==> chain[j].key != key
    ensures DelIn(chain, key) == Without(chain, k)
    ensures FindIn(chain, key) == Some(chain[k].data)
    decreases k
  {
    if k > 0 {
      var rest := chain[1..];
      DelInAt(rest, key, k - 1);
      assert Without(chain, k) == [chain[0]] + Without(rest, k - 1);
    }
  }

  lemma {:induction false} FindInNone<D>(chain: seq<Entry<D>>, key: string)
    requires forall j :: 0 <= j < |chain| ==> chain[j].key != key
    ensures FindIn(chain, key).None?
  {
    if chain != [] {
      FindInNone(chain[1..], key);
    }
  }

  lemma {:induction false} AddAllConcat<D>(bs: Buckets<D>, es: seq<Entry<D>>, fs: seq<Entry<D>>)
    requires es + fs != [] ==> |bs| > 0
    ensures AddAll(bs, es + fs) == AddAll(AddAll(bs, es), fs)
    decreases |es|
  {
    if es == [] {
      assert es + fs == fs;
    } else {
      assert (es + fs)[1..] == es[1..] + fs;
      AddAllConcat(AddTo(bs, es[0]), es[1..], fs);
    }
  }

  lemma Nothing<D>(bs: Buckets<D>)
    ensures Flat<D>([]) == [] && AddAll(bs, []) == bs
  {
  }

  lemma AddAllOne<D>(bs: Buckets<D>, e: Entry<D>)
    requires |bs| > 0
    ensures AddAll(bs, [e]) == AddTo(bs, e)
  {
    assert [e][1..] == [];
  }

  lemma FlatSnoc<D>(bs: Buckets<D>, i: nat)
    requires i < |bs|
    ensures Flat(bs[..i + 1]) == Flat(bs[..i]) + bs[i]
  {
    assert bs[..i + 1] == bs[..i] + [bs[i]];
    FlatConcat(bs[..i], [bs[i]]);
    FlatOne(bs[i]);
  }

  lemma FlatNonEmpty<D>(bs: Buckets<D>, b: nat)
    requires b < |bs| && bs[b] != []
    ensures Flat(bs) != []
  {
    InFlat(bs, bs[b][0]);
    assert bs[b][0] in bs[b];
  }

  // ---------- Whole runs ----------

  datatype Op<D> = Insert(key: string, data: D) | Remove(key: string)

  function New<D>(maxLoad: real, minLoad: real): Table<D> {
    Table(Empty(INITIAL_SIZE), 0, maxLoad, minLoad)
  }

  predicate Fits<D>(t: Table<D>, op: Op<D>)
    requires t.Size() > 0
  {
    op.Remove? ==> !NoRoom(t, op.key)
  }

  /** Each key is inserted only while absent, and the table is never used once it has shrunk to nothing, nor for
      a removal that leaves entries without a bucket. */
  predicate Legal<D>(t: Table<D>, m: map<string, D>, ops: seq<Op<D>>)
    requires Counted(t)
    decreases |ops|
  {
    ops == [] || (
      && t.Size() > 0 && Fits(t, ops[0])
      && (ops[0].Insert? ==> ops[0].key !in m)
      && (StepCounted(t, ops[0]); Legal(Applied(t, ops[0]), MapApplied(m, ops[0]), ops[1..])))
  }

  function Applied<D>(t: Table<D>, op: Op<D>): Table<D>
    requires t.Size() > 0 && Counted(t) && Fits(t, op)
  {
    match op
    case Insert(key, data) => Add(t, key, data)
    case Remove(key) => Del(t, key)
  }

  function MapApplied<D>(m: map<string, D>, op: Op<D>): map<string, D> {
    match op
    case Insert(key, data) => m[key := data]
    case Remove(key) => m - {key}
  }

  lemma AddCounted<D>(t: Table<D>, key: string, data: D)
    requires t.Size() > 0 && Counted(t)
    ensures Counted(Add(t, key, data))
  {
    AddToPermutes(t.buckets, Entry(key, data));
    ResizedPermutes(AddTo(t.buckets, Entry(key, data)), t.Size() * 2);
  }

  lemma DelCounted<D>(t: Table<D>, key: string)
    requires t.Size() > 0 && Counted(t) && !NoRoom(t, key)
    ensures Counted(Del(t, key))
  {
    if Find(t, key).Some? {
      FoundIsCounted(t, key);
      UnlinkedIsCounted(t, key);
      var t' := Unlinked(t, key);
      if Shrinks(t') {
        ResizedPermutes(t'.buckets, t.Size() / 2);
      }
    }
  }

  lemma StepCounted<D>(t: Table<D>, op: Op<D>)
    requires t.Size() > 0 && Counted(t) && Fits(t, op)
    ensures Counted(Applied(t, op)) && Applied(t, op).minLoad == t.minLoad && Applied(t, op).maxLoad == t.maxLoad
  {
    match op
    case Insert(key, data) => AddCounted(t, key, data);
    case Remove(key) => DelCounted(t, key);
  }

  function TableAfter<D>(t: Table<D>, m: map<string, D>, ops: seq<Op<D>>): Table<D>
    requires Counted(t) && Legal(t, m, ops)
    decreases |ops|
  {
    if ops == [] then t
    else
      StepCounted(t, ops[0]);
      TableAfter(Applied(t, ops[0]), MapApplied(m, ops[0]), ops[1..])
  }

  function MapAfter<D>(m: map<string, D>, ops: seq<Op<D>>): map<string, D>
    decreases |ops|
  {
    if ops == [] then m else MapAfter(MapApplied(m, ops[0]), ops[1..])
  }

  /** After any legal run the table is the map that the same run gives: find answers from that map, the
      count is its size, and every entry is in the bucket of its hash. */
  lemma {:induction false} RunIsMap<D>(t: Table<D>, m: map<string, D>, ops: seq<Op<D>>)
    requires Counted(t) && Legal(t, m, ops) && Represents(t.buckets, m)
    ensures var t', m' := TableAfter(t, m, ops), MapAfter(m, ops);
            && Represents(t'.buckets, m') && t'.count == |m'|
            && (t'.Size() > 0 ==> forall k :: Find(t', k) == if k in m' then Some(m'[k]) else None)
    decreases |ops|
  {
    if ops == [] {
      RepresentsLists(t.buckets, m);
      CountIsSize(Flat(t.buckets), m);
      if t.Size() > 0 {
        forall k
          ensures Find(t, k) == if k in m then Some(m[k]) else None
        {
          FindAgrees(t.buckets, m, k);
        }
      }
    } else {
      match ops[0] {
        case Insert(key, data) => AddKeepsMap(t, m, key, data);
        case Remove(key) => DelKeepsMap(t, m, key);
      }
      StepCounted(t, ops[0]);
      RunIsMap(Applied(t, ops[0]), MapApplied(m, ops[0]), ops[1..]);
    }
  }

  // ---------- The load factor ----------

  predicate Loaded<D>(t: Table<D>) {
    t.count as real <= t.maxLoad * t.Size() as real
  }

  // 16 doubled and halved: halving is exact, except that it takes 1 to 0.
  predicate PowerOfTwo(n: nat) {
    n == 1 || (n > 0 && n % 2 == 0 && PowerOfTwo(n / 2))
  }

  lemma Divided(a: real, b: real, c: real)
    requires b > 0.0
    ensures a / b <= c <==> a <= c * b
    ensures a / b < c <==> a < c * b
  {
    var q := a / b;
    assert a == q * b;
    assert (c - q) * b == c * b - a;
    if q <= c {
      assert (c - q) * b >= 0.0;
    } else {
      assert (q - c) * b > 0.0;
    }
    if q < c {
      assert (c - q) * b > 0.0;
    } else {
      assert (q - c) * b >= 0.0;
    }
  }

  lemma GrownLoad(c: nat, size: nat, maxLoad: real)
    requires size > 0 && c as real <= maxLoad * size as real && size as real * maxLoad >= 1.0
    ensures LoadFactor(c + 1, size) <= maxLoad ==> (c + 1) as real <= maxLoad * size as real
    ensures (c + 1) as real <= maxLoad * (size * 2) as real
  {
    var n := size as real;
    Divided((c + 1) as real, n, maxLoad);
    assert (size * 2) as real == n * 2.0;
    assert maxLoad * (n * 2.0) == maxLoad * n + maxLoad * n;
  }

  lemma ShrunkLoad(c: nat, size: nat, minLoad: real, maxLoad: real)
    requires size > 0 && LoadFactor(c, size) < minLoad && minLoad <= maxLoad / 2.0 && maxLoad >= 0.0
    requires if size == 1 then c == 0 else size % 2 == 0
    ensures c as real <= maxLoad * (size / 2) as real
  {
    Divided(c as real, size as real, minLoad);
    var half := (size / 2) as real;
    if size == 1 {
      assert half == 0.0;
    } else {
      assert size as real == half * 2.0;
      assert (maxLoad / 2.0 - minLoad) * (half * 2.0) >= 0.0;
      assert maxLoad / 2.0 * (half * 2.0) == maxLoad * half;
    }
  }

  // One doubling is enough.
  lemma AddKeepsLoad<D>(t: Table<D>, key: string, data: D)
    requires t.Size() > 0 && Loaded(t) && t.Size() as real * t.maxLoad >= 1.0
    ensures Loaded(Add(t, key, data))
    ensures PowerOfTwo(t.Size()) ==> PowerOfTwo(Add(t, key, data).Size())
  {
    hide AddTo, Resized, Slot, LoadFactor;
    GrownLoad(t.count, t.Size(), t.maxLoad);
  }

  lemma OneBucketLoad(c: nat)
    ensures LoadFactor(c, 1) == c as real
  {}

  // When the table is resized, and to what.
  lemma AddDoublesExactly<D>(t: Table<D>, key: string, data: D)
    requires t.Size() > 0
    ensures Add(t, key, data).Size() == if (t.count + 1) as real > t.maxLoad * t.Size() as real then 2 * t.Size() else t.Size()
  {
    hide Resized, AddTo, LoadFactor;
    RatioAbove(t.count + 1, t.Size(), t.maxLoad);
  }

  lemma DelHalvesExactly<D>(t: Table<D>, key: string)
    requires t.Size() > 0 && Counted(t) && !NoRoom(t, key)
    ensures Del(t, key).Size() ==
              if Find(t, key).Some? && (t.count - 1) as real < t.minLoad * t.Size() as real then t.Size() / 2 else t.Size()
  {
    hide DelIn, FindIn, Resized, Slot, Flat, LoadFactor;
    if Find(t, key).Some? {
      FoundIsCounted(t, key);
      UnlinkedIsCounted(t, key);
      RatioAbove(t.count - 1, t.Size(), t.minLoad);
    }
  }

  lemma RatioAbove(count: nat, size: nat, load: real)
    requires size > 0
    ensures LoadFactor(count, size) > load <==> count as real > load * size as real
    ensures LoadFactor(count, size) < load <==> (count as real) < load * size as real
  {
    var r := LoadFactor(count, size);
    assert r * size as real == count as real;
    if r > load {
      assert (r - load) * size as real > 0.0;
    } else if r < load {
      assert (load - r) * size as real > 0.0;
    }
  }

  // One halving is harmless when min_load is at most half of max_load.
  lemma DelKeepsLoad<D>(t: Table<D>, key: string)
    requires t.Size() > 0 && Counted(t) && Loaded(t) && !NoRoom(t, key)
    requires PowerOfTwo(t.Size()) && t.minLoad <= t.maxLoad / 2.0 && t.maxLoad >= 0.0
    ensures Loaded(Del(t, key))
    ensures Del(t, key).Size() == 0 || PowerOfTwo(Del(t, key).Size())
  {
    hide DelIn, FindIn, Resized, Slot, Flat, LoadFactor;
    if Find(t, key).Some? {
      FoundIsCounted(t, key);
      UnlinkedIsCounted(t, key);
      OneBucketLoad(t.count - 1);
      if LoadFactor(t.count - 1, t.Size()) < t.minLoad {
        ShrunkLoad(t.count - 1, t.Size(), t.minLoad, t.maxLoad);
      }
    }
  }

  // ---------- Where the code falls short of a map ----------

  /** A removal wants to put what is left into no bucket at all, where the source divides by zero, exactly when it
      is from a one-bucket table, leaves entries, and leaves fewer than the minimum load. */
  lemma NoRoomExactly<D>(t: Table<D>, key: string)
    requires t.Size() > 0 && Counted(t)
    ensures NoRoom(t, key) <==>
              && Find(t, key).Some? && t.count > 0
              && var t' := Unlinked(t, key); Shrinks(t') && Flat(t'.buckets) != [] && t.Size() / 2 == 0
  {
    if Find(t, key).Some? {
      FoundIsCounted(t, key);
      UnlinkedIsCounted(t, key);
    }
  }

  // Otherwise, deleting the only entry of a one-bucket table leaves no bucket at all, and nothing else does.
  lemma ShrinksToNothingExactly<D>(t: Table<D>, key: string)
    requires t.Size() > 0 && Counted(t) && !NoRoom(t, key)
    ensures Del(t, key).Size() == 0 <==> Find(t, key).Some? && t.Size() == 1 && t.count == 1 && t.minLoad > 0.0
  {
    if Find(t, key).Some? {
      FoundIsCounted(t, key);
      UnlinkedIsCounted(t, key);
      if t.Size() == 1 {
        assert LoadFactor(t.count - 1, 1) == (t.count - 1) as real;
      }
    }
  }

  /** Operations as the directory cache makes them: what is inserted is absent, and one key, that of its root, is
      never removed. */
  predicate Keeping<D>(m: map<string, D>, ops: seq<Op<D>>, kept: string)
    decreases |ops|
  {
    ops == [] || (
      && (match ops[0]
          case Insert(key, _) => key !in m
          case Remove(key) => key != kept)
      && Keeping(MapApplied(m, ops[0]), ops[1..], kept))
  }

  /** As long as one key stays in the table, and its minimum load is at most 1, no run divides by zero or empties
      the table. */
  lemma {:induction false} KeptIsLegal<D>(t: Table<D>, m: map<string, D>, ops: seq<Op<D>>, kept: string)
    requires t.Size() > 0 && Counted(t) && Represents(t.buckets, m) && t.minLoad <= 1.0
    requires kept in m && Keeping(m, ops, kept)
    ensures Legal(t, m, ops) && TableAfter(t, m, ops).Size() > 0
    ensures Represents(TableAfter(t, m, ops).buckets, MapAfter(m, ops))
    decreases |ops|
  {
    if ops != [] {
      match ops[0] {
        case Insert(key, data) => AddKeepsMap(t, m, key, data);
        case Remove(key) => KeptIsNotLast(t, m, key, kept);
      }
      StepCounted(t, ops[0]);
      KeptIsLegal(Applied(t, ops[0]), MapApplied(m, ops[0]), ops[1..], kept);
    }
  }

  lemma KeptIsNotLast<D>(t: Table<D>, m: map<string, D>, key: string, kept: string)
    requires t.Size() > 0 && Counted(t) && Represents(t.buckets, m) && t.minLoad <= 1.0
    requires kept in m && key != kept
    ensures !NoRoom(t, key) && Del(t, key).Size() > 0
    ensures Represents(Del(t, key).buckets, m - {key})
  {
    hide Del, DelIn, FindIn, Flat, Represents, Slot, LoadFactor;
    RepresentsLists(t.buckets, m);
    CountIsSize(Flat(t.buckets), m);
    FindAgrees(t.buckets, m, key);
    if key in m {
      assert {key, kept} <= m.Keys;
      SubsetSize({key, kept}, m.Keys);
    }
    DelKeepsMap(t, m, key);
    ShrinksToNothingExactly(t, key);
  }

  lemma SubsetSize<T>(a: set<T>, b: set<T>)
    requires a <= b
    ensures |a| <= |b|
  {
    assert b == a + (b - a);
  }

  // Each insertion into an empty table, undone, halves it.
  lemma PairHalves<D>(t: Table<D>, key: string, data: D)
    requires t.Size() > 0 && t.count == 0 && Counted(t) && t.maxLoad >= 1.0 && t.minLoad > 0.0
    ensures Add(t, key, data).Size() > 0 && Counted(Add(t, key, data)) && !NoRoom(Add(t, key, data), key)
    ensures var t' := Del(Add(t, key, data), key);
            t'.count == 0 && Counted(t') && t'.Size() == t.Size() / 2 && t'.maxLoad == t.maxLoad && t'.minLoad == t.minLoad
  {
    var n := t.Size() as real;
    assert LoadFactor(1, t.Size()) <= 1.0;
    var a := Add(t, key, data);
    StepCounted(t, Insert(key, data));
    assert a.buckets[Slot(key, t.Size())][0] == Entry(key, data);
    StepCounted(a, Remove(key));
    FoundIsCounted(a, key);
    UnlinkedIsCounted(a, key);
    assert LoadFactor(0, t.Size()) == 0.0;
  }

  lemma OnePairMore<D>(ts: seq<Table<D>>, key: string, data: D) returns (ts': seq<Table<D>>)
    requires ts != [] && forall i :: 0 <= i < |ts| - 1 ==> Pair(ts[i], key, data, ts[i + 1])
    requires var t := ts[|ts| - 1]; t.Size() > 0 && t.count == 0 && Counted(t) && t.maxLoad >= 1.0 && t.minLoad > 0.0
    ensures |ts'| == |ts| + 1 && ts'[0] == ts[0]
    ensures forall i :: 0 <= i < |ts'| - 1 ==> Pair(ts'[i], key, data, ts'[i + 1])
    ensures var t, t' := ts[|ts| - 1], ts'[|ts|];
            t'.Size() == t.Size() / 2 && t'.count == 0 && Counted(t') && t'.maxLoad == t.maxLoad && t'.minLoad == t.minLoad
  {
    hide Add, Del, Counted, NoRoom;
    var t := ts[|ts| - 1];
    PairHalves(t, key, data);
    ts' := ts + [Del(Add(t, key, data), key)];
  }

  // So a new table that is filled and emptied five times can no longer be used.
  lemma FivePairsEmptyTheTable<D>(key: string, data: D, maxLoad: real, minLoad: real) returns (ts: seq<Table<D>>)
    requires maxLoad >= 1.0 && minLoad > 0.0
    ensures |ts| == 6 && ts[0] == New(maxLoad, minLoad)
    ensures forall i :: 0 <= i < 5 ==> Pair(ts[i], key, data, ts[i + 1])
    ensures ts[5].Size() == 0
  {
    hide Pair;
    ts := [New(maxLoad, minLoad)];
    FlatEmpty<D>(INITIAL_SIZE);
    ts := OnePairMore(ts, key, data);
    ts := OnePairMore(ts, key, data);
    ts := OnePairMore(ts, key, data);
    ts := OnePairMore(ts, key, data);
    ts := OnePairMore(ts, key, data);
  }

  ghost predicate Pair<D>(t: Table<D>, key: string, data: D, t': Table<D>) {
    && t.Size() > 0 && Counted(Add(t, key, data)) && !NoRoom(Add(t, key, data), key)
    && t' == Del(Add(t, key, data), key)
  }

  // Inserting well below the maximum load.
  lemma PlainInsert<D>(t: Table<D>, m: map<string, D>, key: string, data: D)
    requires t.Size() > 0 && Counted(t) && Represents(t.buckets, m) && key !in m
    requires t.count < t.Size() && t.maxLoad >= 1.0
    ensures var t' := Add(t, key, data);
            && t'.Size() == t.Size() && t'.count == t.count + 1 && Counted(t') && Represents(t'.buckets, m[key := data])
            && t'.maxLoad == t.maxLoad && t'.minLoad == t.minLoad
  {
    AddKeepsMap(t, m, key, data);
    Divided((t.count + 1) as real, t.Size() as real, 1.0);
  }

  // Removing well below the minimum load.
  lemma HalvingRemove<D>(t: Table<D>, m: map<string, D>, key: string)
    requires t.Size() > 1 && Counted(t) && Represents(t.buckets, m) && key in m
    requires t.count as real <= t.minLoad * t.Size() as real
    ensures !NoRoom(t, key)
    ensures var t' := Del(t, key);
            && t'.Size() == t.Size() / 2 && t'.count == t.count - 1 && Counted(t') && Represents(t'.buckets, m - {key})
            && t'.minLoad == t.minLoad
  {
    hide Represents, Slot, FindIn, DelIn, Resized, Flat, Counted;
    DelKeepsMap(t, m, key);
    FoundIsCounted(t, key);
    Divided((t.count - 1) as real, t.Size() as real, t.minLoad);
  }

  ghost predicate Inserted<D>(ts: seq<Table<D>>, keys: seq<string>, data: D) {
    && |ts| == |keys| + 1
    && forall i :: 0 <= i < |keys| ==> ts[i].Size() > 0 && ts[i + 1] == Add(ts[i], keys[i], data)
  }

  ghost predicate Removed<D>(ts: seq<Table<D>>, keys: seq<string>) {
    && |ts| == |keys| + 1
    && forall i :: 0 <= i < |keys| ==>
         ts[i].Size() > 0 && Counted(ts[i]) && !NoRoom(ts[i], keys[i]) && ts[i + 1] == Del(ts[i], keys[i])
  }

  lemma {:induction false} SixInserts<D>(keys: seq<string>, data: D) returns (ts: seq<Table<D>>, m: map<string, D>)
    requires |keys| == 6 && forall i, j :: 0 <= i < j < 6 ==> keys[i] != keys[j]
    ensures |ts| == 7 && Inserted(ts, keys, data) && ts[0] == New(4.0, 2.0)
    ensures ts[6].Size() == 16 && ts[6].count == 6 && ts[6].minLoad == 2.0 && Counted(ts[6]) && Represents(ts[6].buckets, m)
    ensures forall i :: 0 <= i < 6 ==> keys[i] in m
  {
    hide Add, Counted, Represents, New;
    NewFacts<D>(4.0, 2.0);
    m := map[];
    ts := [New(4.0, 2.0)];
    var i := 0;
    while i < 6
      invariant 0 <= i <= 6 && |ts| == i + 1 && ts[0] == New(4.0, 2.0) && Inserted(ts, keys[..i], data)
      invariant ts[i].Size() == 16 && ts[i].count == i && ts[i].maxLoad == 4.0 && ts[i].minLoad == 2.0
      invariant Counted(ts[i]) && Represents(ts[i].buckets, m)
      invariant forall j :: 0 <= j < 6 ==> (keys[j] in m <==> j < i)
    {
      PlainInsert(ts[i], m, keys[i], data);
      ts := ts + [Add(ts[i], keys[i], data)];
      m := m[keys[i] := data];
      i := i + 1;
    }
    assert keys[..6] == keys;
  }

  lemma {:induction false} Halvings<D>(t: Table<D>, m: map<string, D>, keys: seq<string>) returns (ts: seq<Table<D>>, m': map<string, D>)
    requires Counted(t) && Represents(t.buckets, m) && t.minLoad == 2.0
    requires forall i, j :: 0 <= i < j < |keys| ==> keys[i] != keys[j]
    requires forall i :: 0 <= i < |keys| ==> keys[i] in m
    requires |keys| <= 4 && t.Size() == [1, 2, 4, 8, 16][|keys|] && t.count == |keys| + 2
    ensures |ts| == |keys| + 1 && Removed(ts, keys) && ts[0] == t
    ensures ts[|keys|].Size() == 1 && ts[|keys|].count == 2 && ts[|keys|].minLoad == 2.0
    ensures Represents(ts[|keys|].buckets, m') && forall k :: k in m && k !in keys ==> k in m'
    decreases |keys|
  {
    hide Del, Counted, Represents, NoRoom;
    if keys == [] {
      ts, m' := [t], m;
    } else {
      HalvingRemove(t, m, keys[0]);
      var rest;
      rest, m' := Halvings(Del(t, keys[0]), m - {keys[0]}, keys[1..]);
      ts := [t] + rest;
      assert forall i :: 0 < i < |keys| ==> ts[i] == rest[i - 1] && keys[i] == keys[1..][i - 1];
    }
  }

  /** A minimum load of 2 is within half of a maximum of 4, and a key can not be taken out of a new table again
      once six have gone in and four out: ten operations that lead to a division by zero. */
  lemma LargeMinimumRunsOut<D>(keys: seq<string>, data: D) returns (ins: seq<Table<D>>, outs: seq<Table<D>>)
    requires |keys| == 6 && forall i, j :: 0 <= i < j < 6 ==> keys[i] != keys[j]
    ensures |ins| == 7 && Inserted(ins, keys, data) && ins[0] == New(4.0, 2.0)
    ensures |outs| == 5 && Removed(outs, keys[..4]) && outs[0] == ins[6]
    ensures outs[4].Size() > 0 && NoRoom(outs[4], keys[5])
  {
    hide Inserted, Removed, New, Counted, Represents, NoRoom;
    var m, m';
    ins, m := SixInserts(keys, data);
    outs, m' := Halvings(ins[6], m, keys[..4]);
    OneBucketTwoLeft(outs[4], m', keys[5]);
  }

  lemma NewFacts<D>(maxLoad: real, minLoad: real)
    ensures var t := New<D>(maxLoad, minLoad);
            && t.Size() == INITIAL_SIZE && t.count == 0 && t.maxLoad == maxLoad && t.minLoad == minLoad
            && Counted(t) && Represents(t.buckets, map[])
  {
    EmptyRepresents<D>(INITIAL_SIZE);
    FlatEmpty<D>(INITIAL_SIZE);
  }

  lemma OneBucketTwoLeft<D>(t: Table<D>, m: map<string, D>, key: string)
    requires t.Size() == 1 && t.count == 2 && t.minLoad == 2.0 && Represents(t.buckets, m) && key in m
    ensures NoRoom(t, key)
  {
    FindAgrees(t.buckets, m, key);
  }

  // The oldest entry for a key, which is the one furthest down its chain.
  function LastIn<D>(es: seq<Entry<D>>, key: string): Option<D> {
    if es == [] then None
    else
      var r := LastIn(es[1..], key);
      if r.Some? then r else if es[0].key == key then Some(es[0].data) else None
  }

  ghost predicate Placed<D>(bs: Buckets<D>, from: nat, size: nat)
    requires size > 0
  {
    forall b, e :: 0 <= b < |bs| && e in bs[b] ==> Slot(e.key, size) == from + b
  }

  lemma {:induction false} AddAllFindsLast<D>(bs: Buckets<D>, es: seq<Entry<D>>, key: string)
    requires |bs| > 0
    ensures FindIn(AddAll(bs, es)[Slot(key, |bs|)], key)
         == if LastIn(es, key).Some? then LastIn(es, key) else FindIn(bs[Slot(key, |bs|)], key)
    decreases |es|
  {
    hide Slot;
    if es != [] {
      AddAllFindsLast(AddTo(bs, es[0]), es[1..], key);
      var s := Slot(key, |bs|);
      assert AddTo(bs, es[0])[s] == if Slot(es[0].key, |bs|) == s then [es[0]] + bs[s] else bs[s];
      assert ([es[0]] + bs[s])[1..] == bs[s];
    }
  }

  lemma {:induction false} LastInConcat<D>(a: seq<Entry<D>>, b: seq<Entry<D>>, key: string)
    ensures LastIn(a + b, key) == if LastIn(b, key).Some? then LastIn(b, key) else LastIn(a, key)
  {
    if a == [] {
      assert a + b == b;
    } else {
      assert (a + b)[1..] == a[1..] + b;
      LastInConcat(a[1..], b, key);
    }
  }

  lemma {:induction false} LastInAbsent<D>(es: seq<Entry<D>>, key: string)
    requires forall e :: e in es ==> e.key != key
    ensures LastIn(es, key).None?
  {
    if es != [] {
      LastInAbsent(es[1..], key);
    }
  }

  lemma {:induction false} LastInFlat<D>(bs: Buckets<D>, from: nat, size: nat, key: string)
    requires size > 0 && Placed(bs, from, size)
    ensures LastIn(Flat(bs), key)
         == var s := Slot(key, size); if from <= s < from + |bs| then LastIn(bs[s - from], key) else None
    decreases |bs|
  {
    hide Slot;
    if bs != [] {
      forall b, e | 0 <= b < |bs[1..]| && e in bs[1..][b]
        ensures Slot(e.key, size) == from + 1 + b
      {
        assert e in bs[b + 1];
      }
      LastInFlat(bs[1..], from + 1, size, key);
      LastInConcat(bs[0], Flat(bs[1..]), key);
      if Slot(key, size) != from {
        forall e | e in bs[0]
          ensures e.key != key
        {
        }
        LastInAbsent(bs[0], key);
      }
    }
  }

  /** Why keys must be unique: before a resize find returns the newest entry for a key, after it the
      oldest.  So find survives every resize exactly when the newest and the oldest entry agree. */
  lemma ResizeReversesChains<D>(bs: Buckets<D>, size: nat, key: string)
    requires |bs| > 0 && size > 0 && Placed(bs, 0, |bs|)
    ensures FindIn(Resized(bs, size)[Slot(key, size)], key) == LastIn(bs[Slot(key, |bs|)], key)
  {
    LastInFlat(bs, 0, |bs|, key);
    AddAllFindsLast(Empty(size), Flat(bs), key);
  }

  // ---------- Iterating ----------

  // find_first treats a table whose first occupied bucket is the last one as an empty table.
  predicate IteratorStarts<D>(bs: Buckets<D>) {
    exists s :: 0 <= s < |bs| - 1 && bs[s] != []
  }

  function Iterated<D>(bs: Buckets<D>): seq<Entry<D>> {
    if IteratorStarts(bs) then Flat(bs) else []
  }

  // An iteration sees every entry once, unless the last bucket alone is occupied.
  lemma IteratedIsComplete<D>(bs: Buckets<D>)
    ensures Iterated(bs) == Flat(bs) <==> (IteratorStarts(bs) || |bs| == 0 || bs[|bs| - 1] == [])
  {
    hide Flat;
    if !IteratorStarts(bs) && |bs| > 0 {
      var last := |bs| - 1;
      assert bs == bs[..last] + [bs[last]];
      FlatConcat(bs[..last], [bs[last]]);
      FlatOne(bs[last]);
      FlatOfEmptyChains(bs[..last]);
    } else if bs == [] {
      FlatOfEmptyChains(bs);
    }
  }

  lemma FlatOne<D>(chain: seq<Entry<D>>)
    ensures Flat([chain]) == chain
  {
    assert [chain][1..] == [];
    assert Flat([chain]) == chain + Flat<D>([]);
  }

  lemma {:induction false} FlatOfEmptyChains<D>(bs: Buckets<D>)
    requires forall b :: 0 <= b < |bs| ==> bs[b] == []
    ensures Flat(bs) == []
  {
    if bs != [] {
      FlatOfEmptyChains(bs[1..]);
    }
  }

  // What is still to be seen when the iterator stands at entry `at` of bucket s.
  function RestFrom<D>(bs: Buckets<D>, s: nat, at: nat): seq<Entry<D>>
    requires s < |bs| && at < |bs[s]|
  {
    bs[s][at..] + Flat(bs[s + 1..])
  }

  ghost predicate EmptyBetween<D>(bs: Buckets<D>, lo: nat, hi: nat)
    requires hi <= |bs|
  {
    forall b :: lo <= b < hi ==> bs[b] == []
  }

  lemma EmptyBetweenNext<D>(bs: Buckets<D>, lo: nat, hi: nat)
    requires hi < |bs| && EmptyBetween(bs, lo, hi) && bs[hi] == []
    ensures EmptyBetween(bs, lo, hi + 1)
  {
  }

  lemma {:induction false} FlatSkips<D>(bs: Buckets<D>, lo: nat, hi: nat)
    requires lo <= hi <= |bs| && EmptyBetween(bs, lo, hi)
    ensures Flat(bs[lo..]) == Flat(bs[hi..])
    decreases hi - lo
  {
    if lo < hi {
      assert bs[lo..][1..] == bs[lo + 1..];
      FlatSkips(bs, lo + 1, hi);
    }
  }

  lemma RestFirst<D>(bs: Buckets<D>, s: nat)
    requires s < |bs| && bs[s] != [] && EmptyBetween(bs, 0, s)
    ensures Flat(bs) == RestFrom(bs, s, 0)
  {
    FlatSkips(bs, 0, s);
    assert bs[0..] == bs && bs[s..][1..] == bs[s + 1..];
  }

  // Where find_first puts the iterator, when it stops at bucket s or runs out.
  lemma IteratedFrom<D>(bs: Buckets<D>, s: nat)
    requires s < |bs| && EmptyBetween(bs, 0, s)
    ensures s < |bs| - 1 && bs[s] != [] ==> Iterated(bs) == RestFrom(bs, s, 0)
    ensures s == |bs| - 1 ==> Iterated(bs) == []
  {
    if s < |bs| - 1 && bs[s] != [] {
      RestFirst(bs, s);
    }
  }

  lemma RestNext<D>(bs: Buckets<D>, s: nat, at: nat)
    requires s < |bs| && at + 1 < |bs[s]|
    ensures RestFrom(bs, s, at) == [bs[s][at]] + RestFrom(bs, s, at + 1)
  {
  }

  lemma RestSkips<D>(bs: Buckets<D>, s: nat, at: nat, s': nat)
    requires s < s' <= |bs| && at + 1 == |bs[s]| && EmptyBetween(bs, s + 1, s')
    ensures s' < |bs| && bs[s'] != [] ==> RestFrom(bs, s, at) == [bs[s][at]] + RestFrom(bs, s', 0)
    ensures s' == |bs| ==> RestFrom(bs, s, at) == [bs[s][at]]
  {
    FlatSkips(bs, s + 1, s');
    if s' < |bs| {
      assert bs[s'..][1..] == bs[s' + 1..];
    }
  }
}
