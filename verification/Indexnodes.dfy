/** The known indexnodes: src/indexnodes/indexnodes.c over the lists of src/indexnodes/indexnodes_list.c, the nodes
    of src/indexnodes/indexnode.c and the counters of src/ref_count.c.

    Calls run one at a time here.  The clock is a parameter: one reading for each node it is asked about. */
module IndexnodeLists {
  import opened Decimals
  import opened DottedVersions
  import opened Sequences
  import opened Wrappers

  // ---------- Sequences ----------

  function Reverse<T>(s: seq<T>): (r: seq<T>)
    ensures |r| == |s|
    decreases |s|
  {
    if s == [] then [] else Reverse(s[1..]) + [s[0]]
  }

  lemma {:induction false} ReverseSnoc<T>(s: seq<T>, x: T)
    ensures Reverse(s + [x]) == [x] + Reverse(s)
    decreases |s|
  {
    if s == [] {
      assert s + [x] == [x] && [x][1..] == [];
    } else {
      assert (s + [x])[0] == s[0] && (s + [x])[1..] == s[1..] + [x];
      ReverseSnoc(s[1..], x);
      assert [x] + Reverse(s[1..]) + [s[0]] == [x] + (Reverse(s[1..]) + [s[0]]);
    }
  }

  lemma ReverseCons<T>(x: T, s: seq<T>, after: seq<T>)
    ensures Reverse([x] + s) + after == Reverse(s) + ([x] + after)
  {
    assert ([x] + s)[1..] == s;
  }

  lemma {:induction false} ReverseReverse<T>(s: seq<T>)
    ensures Reverse(Reverse(s)) == s
    decreases |s|
  {
    if s != [] {
      ReverseSnoc(Reverse(s[1..]), s[0]);
      ReverseReverse(s[1..]);
    }
  }

  lemma {:induction false} ReversePermutes<T>(s: seq<T>)
    ensures multiset(Reverse(s)) == multiset(s)
    decreases |s|
  {
    if s != [] {
      ReversePermutes(s[1..]);
      assert s == [s[0]] + s[1..];
    }
  }

  // ---------- Nodes ----------

  class Indexnode {
    const host: string
    const port: string
    const version: string
    const id: string
    var refCount: nat
    var lastSeen: int
    ghost var freed: bool

    constructor (host: string, port: string, version: string, id: string, now: int)
      ensures this.host == host && this.port == port && this.version == version && this.id == id
      ensures refCount == 1 && !freed && lastSeen == now
    {
      this.host, this.port, this.version, this.id := host, port, version, id;
      refCount, freed, lastSeen := 1, false, now;
    }

    method Copy() returns (node: Indexnode)
      requires refCount > 0
      modifies this`refCount
      ensures node == this && refCount == old(refCount) + 1
    {
      refCount := refCount + 1;
      node := this;
    }

    method Delete()
      requires refCount > 0 && !freed
      modifies this`refCount, this`freed
      ensures refCount == old(refCount) - 1 && (freed <==> refCount == 0)
    {
      refCount := refCount - 1;
      if refCount == 0 {
        freed := true;
      }
    }

    method Seen(now: int)
      requires !freed
      modifies this`lastSeen
      ensures lastSeen == now
    {
      lastSeen := now;
    }
  }

  /** `held` is every reference there is.  The counter of a node says how many are to it, and the
      node is freed exactly when there is none. */
  ghost predicate Balanced(nodes: set<Indexnode>, held: multiset<Indexnode>)
    reads nodes
  {
    && (forall n :: n in held ==> n in nodes)
    && (forall n :: n in nodes ==> n.refCount == held[n] && (n.freed <==> held[n] == 0))
  }

  lemma BalancedNew(nodes: set<Indexnode>, held: multiset<Indexnode>, node: Indexnode)
    requires Balanced(nodes, held) && node !in nodes && node.refCount == 1 && !node.freed
    ensures Balanced(nodes + {node}, held + multiset{node})
  {
    assert node !in held;
  }

  method Take(node: Indexnode, ghost nodes: set<Indexnode>, ghost held: multiset<Indexnode>)
    requires Balanced(nodes, held) && node in held
    modifies node`refCount
    ensures node.refCount == old(node.refCount) + 1
    ensures Balanced(nodes, held + multiset{node})
  {
    var _ := node.Copy();
  }

  method Drop(node: Indexnode, ghost nodes: set<Indexnode>, ghost held: multiset<Indexnode>)
    requires Balanced(nodes, held) && node in held
    modifies node`refCount, node`freed
    ensures node.refCount == old(node.refCount) - 1
    ensures Balanced(nodes, held - multiset{node})
  {
    node.Delete();
  }

  lemma HeldAreNodes(nodes: set<Indexnode>, held: multiset<Indexnode>)
    requires Balanced(nodes, held)
    ensures forall n :: n in held ==> n in nodes
  {}

  lemma OneMore(held: multiset<Indexnode>, x: Indexnode, s: seq<Indexnode>)
    ensures held + multiset(s) + multiset{x} == held + multiset([x] + s)
  {
    assert multiset([x] + s) == multiset([x]) + multiset(s);
  }

  lemma OneLess(held: multiset<Indexnode>, s: seq<Indexnode>, i: nat)
    requires i < |s| && multiset(s) <= held
    ensures s[i] in held - multiset(s[..i])
    ensures held - multiset(s[..i]) - multiset{s[i]} == held - multiset(s[..i + 1])
  {
    assert s[..i + 1] == s[..i] + [s[i]];
    assert s == s[..i] + [s[i]] + s[i + 1..];
  }

  // ---------- Lists ----------

  class IndexnodesList {
    var items: seq<Indexnode>

    constructor ()
      ensures items == []
    {
      items := [];
    }

    method Add(node: Indexnode)
      modifies this
      ensures items == [node] + old(items)
    {
      items := [node] + items;
    }
  }

  ghost predicate IdsDiffer(items: seq<Indexnode>) {
    forall i, j :: 0 <= i < j < |items| ==> items[i].id != items[j].id
  }

  ghost predicate Knows(items: seq<Indexnode>, id: string) {
    exists n :: n in items && n.id == id
  }

  // The caller owns the reference that comes back.
  method ListFind(list: IndexnodesList, id: string, ghost nodes: set<Indexnode>, ghost held: multiset<Indexnode>)
      returns (found: Option<Indexnode>)
    requires Balanced(nodes, held) && forall i :: 0 <= i < |list.items| ==> list.items[i] in held
    modifies nodes`refCount
    ensures found.Some? <==> Knows(list.items, id)
    ensures found.Some? ==> found.value in list.items && found.value.id == id
    ensures forall n :: n in nodes ==> n.refCount == old(n.refCount) + if found == Some(n) then 1 else 0
    ensures Balanced(nodes, if found.Some? then held + multiset{found.value} else held)
  {
    found := None;
    var i := 0;
    while i < |list.items|
      invariant 0 <= i <= |list.items|
      invariant Balanced(nodes, held)
      invariant forall j :: 0 <= j < i ==> list.items[j].id != id
      modifies {}
    {
      if list.items[i].id == id {
        break;
      }
      i := i + 1;
    }
    if i < |list.items| {
      var node := list.items[i].Copy();
      found := Some(node);
    }
  }

  // indexnode_still_valid
  predicate StillValid(node: Indexnode, now: int, timeout: int)
    reads node`lastSeen
  {
    now - node.lastSeen < timeout
  }

  // The nodes still valid when each is asked about.
  function Live(items: seq<Indexnode>, readings: seq<int>, timeout: int): (live: seq<Indexnode>)
    requires |readings| == |items|
    reads items`lastSeen
    ensures |live| <= |items|
    decreases |items|
  {
    if items == [] then []
    else (if StillValid(items[0], readings[0], timeout) then [items[0]] else []) + Live(items[1..], readings[1..], timeout)
  }

  // The live nodes among those the loop has not come to yet.
  ghost function LiveAfter(items: seq<Indexnode>, readings: seq<int>, timeout: int, i: nat): seq<Indexnode>
    requires |readings| == |items| && i <= |items|
    reads items`lastSeen
  {
    Live(items[i..], readings[i..], timeout)
  }

  lemma LiveAfterEnds(items: seq<Indexnode>, readings: seq<int>, timeout: int)
    requires |readings| == |items|
    ensures LiveAfter(items, readings, timeout, 0) == Live(items, readings, timeout)
    ensures LiveAfter(items, readings, timeout, |items|) == []
  {
    assert items[0..] == items && readings[0..] == readings;
  }

  lemma LiveAfterStep(items: seq<Indexnode>, readings: seq<int>, timeout: int, i: nat, after: seq<Indexnode>)
    requires |readings| == |items| && i < |items|
    ensures Reverse(LiveAfter(items, readings, timeout, i)) + after
         == Reverse(LiveAfter(items, readings, timeout, i + 1))
            + (if StillValid(items[i], readings[i], timeout) then [items[i]] + after else after)
  {
    assert items[i..][1..] == items[i + 1..] && readings[i..][1..] == readings[i + 1..];
    var rest := LiveAfter(items, readings, timeout, i + 1);
    ReverseCons(items[i], rest, after);
    assert [] + rest == rest;
  }

  lemma MovedOver(held: multiset<Indexnode>, gone: multiset<Indexnode>, got: multiset<Indexnode>)
    requires gone <= held
    ensures gone <= held + got && held + got - gone == held - gone + got
  {}

  method AddCopy(ret: IndexnodesList, node: Indexnode, ghost nodes: set<Indexnode>, ghost held: multiset<Indexnode>)
    requires node in held && Balanced(nodes, held + multiset(ret.items))
    modifies node`refCount, ret
    ensures ret.items == [node] + old(ret.items)
    ensures Balanced(nodes, held + multiset(ret.items))
  {
    hide Balanced;
    OneMore(held, node, ret.items);
    Take(node, nodes, held + multiset(ret.items));
    ret.Add(node);
  }

  // The copy holds a reference to every node of the list, and is the other way round.
  method ListCopy(list: IndexnodesList, ghost nodes: set<Indexnode>, ghost held: multiset<Indexnode>)
      returns (ret: IndexnodesList)
    requires Balanced(nodes, held) && multiset(list.items) <= held
    modifies nodes`refCount
    ensures fresh(ret) && ret.items == Reverse(list.items)
    ensures Balanced(nodes, held + multiset(ret.items))
  {
    hide Balanced, Reverse;
    HeldAreNodes(nodes, held);
    ret := new IndexnodesList();
    var i := 0;
    assert list.items[..0] == [] && held + multiset(ret.items) == held;
    while i < |list.items|
      invariant 0 <= i <= |list.items|
      invariant fresh(ret) && ret.items == Reverse(list.items[..i])
      invariant Balanced(nodes, held + multiset(ret.items))
      modifies nodes`refCount, ret
    {
      assert list.items[i] in multiset(list.items);
      assert list.items[..i + 1] == list.items[..i] + [list.items[i]];
      ReverseSnoc(list.items[..i], list.items[i]);
      AddCopy(ret, list.items[i], nodes, held);
      i := i + 1;
    }
    assert list.items[..i] == list.items;
  }

  method ListDelete(list: IndexnodesList, ghost nodes: set<Indexnode>, ghost held: multiset<Indexnode>)
    requires Balanced(nodes, held) && multiset(list.items) <= held
    modifies nodes`refCount, nodes`freed
    ensures Balanced(nodes, held - multiset(list.items))
  {
    hide Balanced;
    HeldAreNodes(nodes, held);
    var i := 0;
    assert list.items[..0] == [] && held - multiset(list.items[..0]) == held;
    while i < |list.items|
      invariant 0 <= i <= |list.items|
      invariant Balanced(nodes, held - multiset(list.items[..i]))
    {
      OneLess(held, list.items, i);
      Drop(list.items[i], nodes, held - multiset(list.items[..i]));
      i := i + 1;
    }
    assert list.items[..i] == list.items;
  }

  // The new list holds the nodes still valid, the other way round; the references of the old list are gone.
  method RemoveExpired(list: IndexnodesList, readings: seq<int>, timeout: int,
                       ghost nodes: set<Indexnode>, ghost held: multiset<Indexnode>)
      returns (ret: IndexnodesList)
    requires Balanced(nodes, held) && multiset(list.items) <= held
    requires |readings| == |list.items|
    modifies nodes`refCount, nodes`freed
    ensures fresh(ret) && ret.items == Reverse(Live(list.items, readings, timeout))
    ensures Balanced(nodes, held - multiset(list.items) + multiset(ret.items))
  {
    hide Balanced, Live, LiveAfter, Reverse, StillValid;
    HeldAreNodes(nodes, held);
    LiveAfterEnds(list.items, readings, timeout);
    ret := new IndexnodesList();
    var i := 0;
    assert held + multiset(ret.items) == held;
    while i < |list.items|
      invariant 0 <= i <= |list.items|
      invariant fresh(ret)
      invariant Reverse(LiveAfter(list.items, readings, timeout, i)) + ret.items == old(Reverse(Live(list.items, readings, timeout)))
      invariant Balanced(nodes, held + multiset(ret.items))
      modifies nodes`refCount, ret
    {
      assert list.items[i] in multiset(list.items);
      LiveAfterStep(list.items, readings, timeout, i, ret.items);
      if StillValid(list.items[i], readings[i], timeout) {
        AddCopy(ret, list.items[i], nodes, held);
      }
      i := i + 1;
    }
    LiveAfterEnds(list.items, readings, timeout);
    MovedOver(held, multiset(list.items), multiset(ret.items));
    ListDelete(list, nodes, held + multiset(ret.items));
  }
}

/** What the lists promise together. */
module IndexnodeListFacts {
  import opened IndexnodeLists
  import opened Sequences

  // Where the live nodes stand in the list.
  function Positions(items: seq<Indexnode>, readings: seq<int>, timeout: int, from: nat): (p: seq<nat>)
    requires |readings| == |items| && from <= |items|
    reads items`lastSeen
    decreases |items| - from
  {
    if from == |items| then []
    else (if StillValid(items[from], readings[from], timeout) then [from] else [])
         + Positions(items, readings, timeout, from + 1)
  }

  ghost predicate Increasing(p: seq<nat>) {
    forall j, k :: 0 <= j < k < |p| ==> p[j] < p[k]
  }

  lemma {:induction false} PositionsAreLive(items: seq<Indexnode>, readings: seq<int>, timeout: int, from: nat)
    requires |readings| == |items| && from <= |items|
    ensures var p := Positions(items, readings, timeout, from);
            && Increasing(p)
            && forall i :: i in p <==> from <= i < |items| && StillValid(items[i], readings[i], timeout)
    decreases |items| - from
  {
    hide StillValid;
    if from < |items| {
      PositionsAreLive(items, readings, timeout, from + 1);
      var later := Positions(items, readings, timeout, from + 1);
      assert forall k :: 0 <= k < |later| ==> later[k] in later;
    }
  }

  // Those are the nodes asked about less than the time-out after they were last seen.
  lemma PositionsAreInTime(items: seq<Indexnode>, readings: seq<int>, timeout: int)
    requires |readings| == |items|
    ensures forall i :: i in Positions(items, readings, timeout, 0) <==>
              0 <= i < |items| && readings[i] < items[i].lastSeen + timeout
  {
    PositionsAreLive(items, readings, timeout, 0);
  }

  // Live is the sublist of the nodes at those positions: the valid ones, in the order of the list.
  lemma {:induction false} LiveIsSublist(items: seq<Indexnode>, readings: seq<int>, timeout: int, from: nat)
    requires |readings| == |items| && from <= |items|
    ensures var live, p := Live(items[from..], readings[from..], timeout), Positions(items, readings, timeout, from);
            |live| == |p| && forall k :: 0 <= k < |p| ==> p[k] < |items| && live[k] == items[p[k]]
    decreases |items| - from
  {
    hide StillValid;
    if from < |items| {
      assert items[from..][1..] == items[from + 1..] && readings[from..][1..] == readings[from + 1..];
      LiveIsSublist(items, readings, timeout, from + 1);
    }
  }

  lemma {:induction false} LiveAreItems(items: seq<Indexnode>, readings: seq<int>, timeout: int)
    requires |readings| == |items|
    ensures forall n :: n in Live(items, readings, timeout) ==> n in items
    decreases |items|
  {
    if items != [] {
      LiveAreItems(items[1..], readings[1..], timeout);
    }
  }

  lemma {:induction false} LiveIdsDiffer(items: seq<Indexnode>, readings: seq<int>, timeout: int)
    requires |readings| == |items| && IdsDiffer(items)
    ensures IdsDiffer(Live(items, readings, timeout))
    decreases |items|
  {
    if items != [] {
      var rest := Live(items[1..], readings[1..], timeout);
      LiveIdsDiffer(items[1..], readings[1..], timeout);
      LiveAreItems(items[1..], readings[1..], timeout);
      assert forall k :: 0 <= k < |rest| ==> rest[k] in items[1..];
    }
  }

  lemma {:induction false} ReverseIdsDiffer(items: seq<Indexnode>)
    requires IdsDiffer(items)
    ensures IdsDiffer(Reverse(items))
    decreases |items|
  {
    if items != [] {
      var rest := Reverse(items[1..]);
      ReverseIdsDiffer(items[1..]);
      ReversePermutes(items[1..]);
      assert forall k :: 0 <= k < |rest| ==> rest[k] in multiset(rest);
    }
  }

  lemma {:induction false} AllLive(items: seq<Indexnode>, readings: seq<int>, timeout: int)
    requires |readings| == |items|
    requires forall i :: 0 <= i < |items| ==> StillValid(items[i], readings[i], timeout)
    ensures Live(items, readings, timeout) == items
    decreases |items|
  {
    if items != [] {
      AllLive(items[1..], readings[1..], timeout);
    }
  }

  /** Getting the list turns the master list round, so two gets with no expiry or advert between them
      give opposite orders, and every other get the same one. */
  lemma OrderAlternates(items: seq<Indexnode>, r1: seq<int>, r2: seq<int>, r3: seq<int>, timeout: int)
    requires |r1| == |items|
    requires var master := Reverse(Live(items, r1, timeout));
             && |r2| == |r3| == |master|
             && (forall i :: 0 <= i < |master| ==> StillValid(master[i], r2[i], timeout))
             && (forall i :: 0 <= i < |master| ==> StillValid(Reverse(master)[i], r3[i], timeout))
    ensures var first, master := Live(items, r1, timeout), Reverse(Live(items, r1, timeout));
            && Live(master, r2, timeout) == Reverse(first)
            && Live(Reverse(Live(master, r2, timeout)), r3, timeout) == first
  {
    var master := Reverse(Live(items, r1, timeout));
    AllLive(master, r2, timeout);
    ReverseReverse(Live(items, r1, timeout));
    AllLive(Reverse(master), r3, timeout);
  }

  // The references that a number of lists hold.
  ghost function Occurrences(lists: seq<IndexnodesList>): multiset<Indexnode>
    reads lists
    decreases |lists|
  {
    if lists == [] then multiset{} else multiset(lists[0].items) + Occurrences(lists[1..])
  }

  lemma {:induction false} OccurrencesWithout(lists: seq<IndexnodesList>, k: nat)
    requires k < |lists|
    ensures Occurrences(lists) == multiset(lists[k].items) + Occurrences(Without(lists, k))
    decreases |lists|
  {
    if k == 0 {
      assert Without(lists, k) == lists[1..];
    } else {
      assert Without(lists, k)[0] == lists[0] && Without(lists, k)[1..] == Without(lists[1..], k - 1);
      OccurrencesWithout(lists[1..], k - 1);
    }
  }
}

/** src/indexnodes/indexnodes.c: the master list, the lists lent out and the references to the nodes of both. */
module KnownIndexnodes {
  import opened Decimals
  import opened DottedVersions
  import opened IndexnodeListFacts
  import opened IndexnodeLists
  import opened Sequences
  import opened Wrappers

  const PREFIX := "fs2protocol-"

  // The text up to the first white space: sscanf's %s.
  function Word(s: string): (w: string)
    decreases |s|
  {
    if s == "" || IsSpace(s[0]) then "" else [s[0]] + Word(s[1..])
  }

  // parse_fs2protocol
  function ProtocolVersion(fs2protocol: string): Option<string> {
    if PREFIX <= fs2protocol then Some(Word(SkipSpaces(fs2protocol[|PREFIX|..]))) else None
  }

  lemma {:induction false} WordUpTo(w: string, rest: string)
    requires (forall i :: 0 <= i < |w| ==> !IsSpace(w[i])) && (rest == "" || IsSpace(rest[0]))
    ensures Word(w + rest) == w
    decreases |w|
  {
    if w == "" {
      assert w + rest == rest;
    } else {
      assert (w + rest)[0] == w[0] && (w + rest)[1..] == w[1..] + rest;
      WordUpTo(w[1..], rest);
    }
  }

  /** The version is the word after the prefix, white space before and after it left out; and there is one whenever the
      prefix is. */
  lemma ProtocolVersionIs(blank: string, version: string, rest: string)
    requires Blank(blank) && version != "" && (forall i :: 0 <= i < |version| ==> !IsSpace(version[i]))
    requires rest == "" || IsSpace(rest[0])
    ensures ProtocolVersion("fs2protocol-" + (blank + (version + rest))) == Some(version)
    ensures forall s: string :: ProtocolVersion(s).None? <==> !("fs2protocol-" <= s)
  {
    var after := version + rest;
    assert after[0] == version[0];
    SkipBlank(blank, after);
    assert ("fs2protocol-" + (blank + after))[|PREFIX|..] == blank + after;
    WordUpTo(version, rest);
  }

  // As indexnode_new leaves it.
  ghost predicate IsNew(node: Indexnode, host: string, port: string, version: string, id: string, now: int)
    reads node
  {
    && node.host == host && node.port == port && node.version == version && node.id == id
    && node.refCount == 1 && node.lastSeen == now && !node.freed
  }

  class Indexnodes {
    var list: IndexnodesList
    ghost var nodes: set<Indexnode>          // every node there has been
    ghost var lists: seq<IndexnodesList>     // the lists callers hold
    ghost var handles: multiset<Indexnode>   // the references callers hold besides

    ghost function References(): multiset<Indexnode>
      reads this, list, lists
    {
      multiset(list.items) + Occurrences(lists) + handles
    }

    /** Each node's counter is its occurrences in the lists plus the handles on it; it is freed exactly
        at zero; no two nodes of the master list have the same id. */
    ghost predicate Valid()
      reads this, list, lists, nodes
    {
      && Balanced(nodes, References())
      && IdsDiffer(list.items)
      && list !in lists
    }

    constructor ()
      ensures Valid() && list.items == [] && nodes == {} && lists == [] && handles == multiset{}
      ensures fresh(list)
    {
      list := new IndexnodesList();
      nodes, lists, handles := {}, [], multiset{};
    }

    lemma ReferencesAre(items: multiset<Indexnode>, lent: multiset<Indexnode>, other: multiset<Indexnode>)
      requires multiset(list.items) == items && Occurrences(lists) == lent && handles == other
      ensures References() == items + lent + other
    {}

    // The master list gives up its references to the nodes no longer valid, and turns round.
    method DropExpired(readings: seq<int>, timeout: int)
      requires Valid() && |readings| == |list.items|
      modifies this`list, nodes`refCount, nodes`freed
      ensures Valid() && fresh(list)
      ensures list.items == old(Reverse(Live(list.items, readings, timeout)))
    {
      hide Balanced, IdsDiffer, Live, Reverse, Occurrences, StillValid, References, Positions, Increasing, LiveAfter;
      ghost var before, o, h := list.items, Occurrences(lists), handles;
      ReferencesAre(multiset(before), o, h);
      LiveIdsDiffer(before, readings, timeout);
      ReverseIdsDiffer(Live(before, readings, timeout));
      Swapped(multiset(before), Reverse(Live(before, readings, timeout)), o, h);
      list := RemoveExpired(list, readings, timeout, nodes, References());
      ReferencesAre(multiset(list.items), o, h);
    }

    // A copy of the master list for a caller to keep, the other way round.
    method Lend() returns (ret: IndexnodesList)
      requires Valid()
      modifies this`lists, nodes`refCount
      ensures Valid() && fresh(ret) && lists == [ret] + old(lists)
      ensures ret.items == Reverse(list.items)
    {
      hide Balanced, IdsDiffer, Reverse, Occurrences, References;
      ghost var o := Occurrences(lists);
      ghost var held := References();
      ReferencesAre(multiset(list.items), o, handles);
      Swapped(multiset(list.items), list.items, o, handles);
      ret := ListCopy(list, nodes, held);
      OccurrencesCons(ret, lists);
      Moved(multiset(list.items), multiset(ret.items), o, handles);
      lists := [ret] + lists;
      ReferencesAre(multiset(list.items), multiset(ret.items) + o, handles);
    }

    /** The valid nodes, in the order the master list had them before the call.  `readings` are the clock
        as it is read for each node of that list. */
    method IndexnodesGet(readings: seq<int>, timeout: int) returns (ret: IndexnodesList)
      requires Valid() && |readings| == |list.items|
      modifies this`list, this`lists, nodes`refCount, nodes`freed
      ensures Valid() && fresh(ret) && fresh(list) && lists == [ret] + old(lists)
      ensures ret.items == old(Live(list.items, readings, timeout))
      ensures list.items == Reverse(ret.items)
    {
      hide Balanced, IdsDiffer, Live, Reverse, Occurrences, StillValid;
      ReverseReverse(Live(list.items, readings, timeout));
      DropExpired(readings, timeout);
      ret := Lend();
    }

    lemma ReferencesToItems()
      requires Valid()
      ensures forall i :: 0 <= i < |list.items| ==> list.items[i] in References() && list.items[i] in nodes
    {
      assert forall i :: 0 <= i < |list.items| ==> list.items[i] in multiset(list.items);
    }

    // The node found is marked and the reference to it given back.
    method SeenAgain(node: Indexnode, now: int)
      requires node in list.items && list !in lists && IdsDiffer(list.items)
      requires Balanced(nodes, References() + multiset{node})
      modifies node`refCount, node`freed, node`lastSeen
      ensures Valid() && node.lastSeen == now && node.refCount == old(node.refCount) - 1
    {
      hide IdsDiffer, Occurrences;
      node.Seen(now);
      ghost var held := References();
      assert held + multiset{node} - multiset{node} == held;
      Drop(node, nodes, held + multiset{node});
      assert References() == held;
    }

    method AddNode(host: string, port: string, version: string, id: string, now: int)
      requires Valid() && !Knows(list.items, id)
      modifies this`nodes, list
      ensures Valid() && |list.items| > 0 && list.items[1..] == old(list.items)
      ensures fresh(list.items[0]) && nodes == old(nodes) + {list.items[0]}
      ensures IsNew(list.items[0], host, port, version, id, now)
    {
      hide Occurrences, Balanced, References;
      var node := new Indexnode(host, port, version, id, now);
      ghost var before, o, held := list.items, Occurrences(lists), References();
      ReferencesAre(multiset(before), o, handles);
      BalancedNew(nodes, held, node);
      list.Add(node);
      nodes := nodes + {node};
      assert list.items[1..] == before;
      ReferencesAre(multiset(list.items), o, handles);
      assert References() == held + multiset{node} by {
        assert multiset(list.items) == multiset{node} + multiset(before);
      }
    }

    // What follows once the version is known to be one the program speaks.
    method Advertised(host: string, port: string, version: string, id: string, now: int)
      requires Valid()
      modifies this`nodes, list, nodes`refCount, nodes`freed, nodes`lastSeen
      ensures Valid()
      ensures forall n :: n in old(nodes) ==> n.refCount == old(n.refCount)
      ensures !Knows(old(list.items), id) ==>
                && |list.items| > 0 && fresh(list.items[0]) && list.items[1..] == old(list.items)
                && nodes == old(nodes) + {list.items[0]}
                && IsNew(list.items[0], host, port, version, id, now)
      ensures Knows(old(list.items), id) ==> list.items == old(list.items) && nodes == old(nodes)
      ensures forall n :: n in old(nodes) ==>
                n.lastSeen == if n in old(list.items) && n.id == id then now else old(n.lastSeen)
    {
      hide Balanced, IdsDiffer, Occurrences, CheckVersion, IsNew, Knows, References;
      CheckVersionAcceptsAll(version);
      ReferencesToItems();
      OneNodePerId(list.items, id);
      var found := ListFind(list, id, nodes, References());
      if found.Some? {
        SeenAgain(found.value, now);
      } else if CheckVersion(version) {
        AddNode(host, port, version, id, now);
      }
    }

    /** An advert.  It marks the node of that id as seen, when the master list has one; if not, it adds
        a node, seen now, at the head, whatever its version.  One of another protocol changes nothing here, but its
        string is freed twice: `frees` is how often. */
    method NewIndexnodeEvent(host: string, port: string, fs2protocol: string, id: string, now: int) returns (frees: nat)
      requires Valid()
      requires id != "" && ProtocolVersion(fs2protocol) != Some("")
      modifies this`nodes, list, nodes`refCount, nodes`freed, nodes`lastSeen
      ensures Valid() && frees == (if ProtocolVersion(fs2protocol).Some? then 1 else 2)
      ensures forall n :: n in old(nodes) ==> n.refCount == old(n.refCount)
      ensures var version := ProtocolVersion(fs2protocol);
              if version.Some? && !Knows(old(list.items), id) then
                && |list.items| > 0 && fresh(list.items[0]) && list.items[1..] == old(list.items)
                && nodes == old(nodes) + {list.items[0]}
                && IsNew(list.items[0], host, port, version.value, id, now)
              else list.items == old(list.items) && nodes == old(nodes)
      ensures forall n :: n in old(nodes) ==>
                n.lastSeen == if n in old(list.items) && n.id == id && ProtocolVersion(fs2protocol).Some? then now
                              else old(n.lastSeen)
    {
      hide Balanced, IdsDiffer, Occurrences, CheckVersion, ProtocolVersion, IsNew, Knows;
      var version := ProtocolVersion(fs2protocol);
      frees := 1;
      if version.Some? {
        Advertised(host, port, version.value, id, now);
      } else {
        frees := frees + 1;
      }
    }

    // A caller deletes a list it was given.
    method IndexnodesListDelete(lent: IndexnodesList, ghost k: nat)
      requires Valid() && k < |lists| && lists[k] == lent
      modifies this`lists, nodes`refCount, nodes`freed
      ensures Valid() && lists == Without(old(lists), k)
    {
      hide Balanced, IdsDiffer, Occurrences, References;
      OccurrencesWithout(lists, k);
      ghost var o := Occurrences(Without(lists, k));
      ReferencesAre(multiset(list.items), Occurrences(lists), handles);
      Removed(multiset(list.items), multiset(lent.items), o, handles);
      ListDelete(lent, nodes, References());
      lists := Without(lists, k);
      ReferencesAre(multiset(list.items), o, handles);
    }

    // A caller that can see a node, in a list or by another reference, copies it.
    method IndexnodeCopy(node: Indexnode) returns (copy: Indexnode)
      requires Valid() && node in References()
      modifies this`handles, node`refCount
      ensures Valid() && copy == node && handles == old(handles) + multiset{node}
    {
      hide Balanced, IdsDiffer, Occurrences;
      ghost var held := References();
      Take(node, nodes, held);
      handles := handles + multiset{node};
      copy := node;
      assert References() == held + multiset{node};
    }

    method IndexnodeDelete(node: Indexnode)
      requires Valid() && node in handles
      modifies this`handles, node`refCount, node`freed
      ensures Valid() && handles == old(handles) - multiset{node}
    {
      hide Balanced, IdsDiffer, Occurrences, References;
      ghost var items, o := multiset(list.items), Occurrences(lists);
      ReferencesAre(items, o, handles);
      OneHandleLess(items + o, handles, node);
      Drop(node, nodes, References());
      handles := handles - multiset{node};
      ReferencesAre(items, o, handles);
    }

    // indexnodes_delete.  What callers still hold stays; when they hold nothing, every node is freed.
    method Delete()
      requires Valid()
      modifies this`list, nodes`refCount, nodes`freed
      ensures Balanced(nodes, Occurrences(lists) + handles)
      ensures lists == [] && handles == multiset{} ==> forall n :: n in nodes ==> n.freed && n.refCount == 0
    {
      hide Balanced, IdsDiffer;
      ghost var held, rest := References(), Occurrences(lists) + handles;
      assert held - multiset(list.items) == rest;
      ListDelete(list, nodes, held);
      if lists == [] && handles == multiset{} {
        AllFreed(nodes, rest);
      }
    }
  }

  datatype Call =
    | Get(readings: seq<int>, timeout: int)
    | Advert(host: string, port: string, fs2protocol: string, id: string, now: int)
    | DeleteList(k: nat)
    | CopyNode(k: nat, j: nat)   // a further reference to node j of list k
    | DeleteNode(k: nat)

  /** What there is to see between two calls: the master list, the lists lent out, the further references of the
      callers, and when each node there has been was last seen. */
  datatype Known = Known(master: seq<Indexnode>, lent: seq<seq<Indexnode>>, mine: seq<Indexnode>, seen: map<Indexnode, int>)

  // The counters of the nodes, and which are freed.
  datatype Account = Account(count: map<Indexnode, nat>, freed: set<Indexnode>)

  const NothingKnown := Known([], [], [], map[])

  function Items(lists: seq<IndexnodesList>): (r: seq<seq<Indexnode>>)
    reads lists
    ensures |r| == |lists| && forall i :: 0 <= i < |r| ==> r[i] == lists[i].items
  {
    seq(|lists|, i requires 0 <= i < |lists| reads lists => lists[i].items)
  }

  ghost function KnownBy(ins: Indexnodes, lists: seq<IndexnodesList>, mine: seq<Indexnode>): Known
    reads ins, ins.list, lists, ins.nodes
  {
    Known(ins.list.items, Items(lists), mine, map n | n in ins.nodes :: n.lastSeen)
  }

  ghost function AccountOf(nodes: set<Indexnode>): Account
    reads nodes
  {
    Account(map n | n in nodes :: n.refCount, set n | n in nodes && n.freed)
  }

  // The calls that the source's own assertions and the callers' ownership of references allow.
  predicate Allowed(c: Call, master: seq<Indexnode>, lent: seq<seq<Indexnode>>, mine: seq<Indexnode>) {
    match c
    case Get(readings, _) => |readings| == |master|
    case Advert(_, _, fs2protocol, id, _) => id != "" && ProtocolVersion(fs2protocol) != Some("")
    case DeleteList(k) => k < |lent|
    case CopyNode(k, j) => k < |lent| && j < |lent[k]|
    case DeleteNode(k) => k < |mine|
  }

  // The nodes still valid, by when they were last seen.
  ghost function LiveBy(items: seq<Indexnode>, readings: seq<int>, seen: map<Indexnode, int>, timeout: int): seq<Indexnode>
    requires |readings| == |items|
  {
    if items == [] then []
    else (if items[0] in seen && readings[0] - seen[items[0]] < timeout then [items[0]] else [])
         + LiveBy(items[1..], readings[1..], seen, timeout)
  }

  lemma {:induction false} LiveByIsLive(items: seq<Indexnode>, readings: seq<int>, seen: map<Indexnode, int>, timeout: int)
    requires |readings| == |items| && forall n :: n in items ==> n in seen && seen[n] == n.lastSeen
    ensures LiveBy(items, readings, seen, timeout) == Live(items, readings, timeout)
  {
    if items != [] {
      LiveByIsLive(items[1..], readings[1..], seen, timeout);
    }
  }

  // What a call does that may be made.
  ghost predicate Effect(s: Known, c: Call, s': Known) {
    Allowed(c, s.master, s.lent, s.mine) &&
    match c
    case Get(readings, timeout) =>
      var live := LiveBy(s.master, readings, s.seen, timeout);
      s' == Known(Reverse(live), [live] + s.lent, s.mine, s.seen)
    case Advert(host, port, fs2protocol, id, now) =>
      var version := ProtocolVersion(fs2protocol);
      if version.None? then s' == s
      else if Knows(s.master, id) then
        s' == s.(seen := map n | n in s.seen :: if n in s.master && n.id == id then now else s.seen[n])
      else
        && |s'.master| > 0
        && var node := s'.master[0];
           && node !in s.seen
           && node.host == host && node.port == port && node.version == version.value && node.id == id
           && s' == s.(master := [node] + s.master, seen := s.seen[node := now])
    case DeleteList(k) => s' == s.(lent := Without(s.lent, k))
    case CopyNode(k, j) => s' == s.(mine := s.mine + [s.lent[k][j]])
    case DeleteNode(k) => s' == s.(mine := Without(s.mine, k))
  }

  // A call that may not be made is not made.
  ghost predicate Step(s: Known, c: Call, s': Known) {
    if Allowed(c, s.master, s.lent, s.mine) then Effect(s, c, s') else s' == s
  }

  ghost function Lent(lent: seq<seq<Indexnode>>): multiset<Indexnode> {
    if lent == [] then multiset{} else multiset(lent[0]) + Lent(lent[1..])
  }

  /** No two nodes of the master list have one id; each counter is the number of references in the master list, in
      the lists lent out and besides; and a node is freed exactly at zero. */
  ghost predicate Sound(s: Known, a: Account) {
    && IdsDiffer(s.master) && (forall n :: n in s.master ==> n in s.seen)
    && a.count.Keys == s.seen.Keys
    && (forall n :: n in a.count ==> a.count[n] == (multiset(s.master) + Lent(s.lent) + multiset(s.mine))[n])
    && a.freed == (set n | n in a.count && a.count[n] == 0)
  }

  lemma {:induction false} LentIsOccurrences(lists: seq<IndexnodesList>)
    ensures Lent(Items(lists)) == Occurrences(lists)
  {
    if lists != [] {
      assert Items(lists)[1..] == Items(lists[1..]);
      LentIsOccurrences(lists[1..]);
    }
  }

  lemma ValidIsSound(ins: Indexnodes, lists: seq<IndexnodesList>, mine: seq<Indexnode>)
    requires ins.Valid() && ins.lists == lists && ins.handles == multiset(mine)
    ensures Sound(KnownBy(ins, lists, mine), AccountOf(ins.nodes))
  {
    LentIsOccurrences(lists);
    ins.ReferencesToItems();
  }

  method ServeGet(ins: Indexnodes, readings: seq<int>, timeout: int, lists: seq<IndexnodesList>, ghost mine: seq<Indexnode>)
      returns (ret: IndexnodesList)
    requires ins.Valid() && ins.lists == lists && |readings| == |ins.list.items|
    modifies ins`list, ins`lists, ins.nodes`refCount, ins.nodes`freed
    ensures ins.Valid() && ins.lists == [ret] + lists && fresh(ins.list)
    ensures Effect(old(KnownBy(ins, lists, mine)), Get(readings, timeout), KnownBy(ins, [ret] + lists, mine))
  {
    hide Indexnodes.Valid, Indexnodes.References, Live, LiveBy, Reverse;
    ghost var s := KnownBy(ins, lists, mine);
    ItemsAreNodes(ins);
    LiveByIsLive(s.master, readings, s.seen, timeout);
    ret := ins.IndexnodesGet(readings, timeout);
    ghost var s' := KnownBy(ins, [ret] + lists, mine);
    assert s'.lent == [ret.items] + s.lent;
    assert s'.seen == s.seen;
  }

  method ServeAdvert(ins: Indexnodes, host: string, port: string, fs2protocol: string, id: string, now: int,
                     lists: seq<IndexnodesList>, ghost mine: seq<Indexnode>)
    requires ins.Valid() && ins.lists == lists && id != "" && ProtocolVersion(fs2protocol) != Some("")
    modifies ins`nodes, ins.list, ins.nodes`refCount, ins.nodes`freed, ins.nodes`lastSeen
    ensures ins.Valid() && fresh(ins.nodes - old(ins.nodes))
    ensures Effect(old(KnownBy(ins, lists, mine)), Advert(host, port, fs2protocol, id, now), KnownBy(ins, lists, mine))
  {
    hide Indexnodes.Valid, Indexnodes.References, Knows, ProtocolVersion;
    ghost var s := KnownBy(ins, lists, mine);
    ItemsAreNodes(ins);
    ListApart(ins);
    var frees := ins.NewIndexnodeEvent(host, port, fs2protocol, id, now);
    ghost var s' := KnownBy(ins, lists, mine);
    assert s'.lent == s.lent;
    if ProtocolVersion(fs2protocol).Some? && !Knows(s.master, id) {
      Unknown(s.master, id);
      assert s'.master == [s'.master[0]] + s.master;
      assert s'.seen == s.seen[s'.master[0] := now];
    } else if ProtocolVersion(fs2protocol).Some? {
      assert s'.seen == map n | n in s.seen :: if n in s.master && n.id == id then now else s.seen[n];
    } else {
      assert s'.seen == s.seen;
    }
  }

  lemma ItemsAreNodes(ins: Indexnodes)
    requires ins.Valid()
    ensures forall n :: n in ins.list.items ==> n in ins.nodes
  {
    ins.ReferencesToItems();
  }

  lemma Unknown(items: seq<Indexnode>, id: string)
    requires !Knows(items, id)
    ensures forall n :: n in items ==> n.id != id
  {}

  lemma KnownIs(ins: Indexnodes, lists: seq<IndexnodesList>, mine: seq<Indexnode>)
    ensures var s := KnownBy(ins, lists, mine);
            s.master == ins.list.items && s.lent == Items(lists) && s.mine == mine && s.seen.Keys == ins.nodes
  {}

  lemma ListApart(ins: Indexnodes)
    requires ins.Valid()
    ensures ins.list !in ins.lists
  {}

  // One call, and all that it does.
  method Serve(ins: Indexnodes, c: Call, lists: seq<IndexnodesList>, mine: seq<Indexnode>)
      returns (lists': seq<IndexnodesList>, mine': seq<Indexnode>)
    requires ins.Valid() && ins.lists == lists && ins.handles == multiset(mine)
    requires Allowed(c, ins.list.items, Items(lists), mine)
    modifies ins, ins.list, ins.nodes
    ensures ins.Valid() && ins.lists == lists' && ins.handles == multiset(mine')
    ensures ins.list == old(ins.list) || fresh(ins.list)
    ensures fresh(ins.nodes - old(ins.nodes))
    ensures Effect(old(KnownBy(ins, lists, mine)), c, KnownBy(ins, lists', mine'))
    ensures Sound(KnownBy(ins, lists', mine'), AccountOf(ins.nodes))
  {
    hide Indexnodes.Valid, Indexnodes.References, ProtocolVersion, Without, Effect, KnownBy, Sound, AccountOf;
    lists', mine' := lists, mine;
    match c {
      case Get(readings, timeout) =>
        var ret := ServeGet(ins, readings, timeout, lists, mine);
        lists' := [ret] + lists;
      case Advert(host, port, fs2protocol, id, now) =>
        ServeAdvert(ins, host, port, fs2protocol, id, now, lists, mine);
      case DeleteList(k) =>
        ServeDeleteList(ins, k, lists, mine);
        lists' := Without(lists, k);
      case CopyNode(k, j) =>
        var copy := ServeCopyNode(ins, k, j, lists, mine);
        mine' := mine + [copy];
      case DeleteNode(k) =>
        ServeDeleteNode(ins, k, lists, mine);
        mine' := Without(mine, k);
    }
    ValidIsSound(ins, lists', mine');
  }

  method ServeDeleteList(ins: Indexnodes, k: nat, lists: seq<IndexnodesList>, ghost mine: seq<Indexnode>)
    requires ins.Valid() && ins.lists == lists && k < |lists|
    modifies ins`lists, ins.nodes`refCount, ins.nodes`freed
    ensures ins.Valid() && ins.lists == Without(lists, k)
    ensures Effect(old(KnownBy(ins, lists, mine)), DeleteList(k), KnownBy(ins, Without(lists, k), mine))
  {
    hide Indexnodes.Valid, Without;
    ghost var s := KnownBy(ins, lists, mine);
    ins.IndexnodesListDelete(lists[k], k);
    ItemsWithout(lists, k);
    assert KnownBy(ins, Without(lists, k), mine).seen == s.seen;
  }

  method ServeCopyNode(ins: Indexnodes, k: nat, j: nat, lists: seq<IndexnodesList>, ghost mine: seq<Indexnode>)
      returns (copy: Indexnode)
    requires ins.Valid() && ins.lists == lists && ins.handles == multiset(mine)
    requires k < |lists| && j < |lists[k].items|
    modifies ins`handles, ins.nodes`refCount
    ensures ins.Valid() && ins.handles == multiset(mine + [copy])
    ensures Effect(old(KnownBy(ins, lists, mine)), CopyNode(k, j), KnownBy(ins, lists, mine + [copy]))
  {
    hide Indexnodes.Valid, Indexnodes.References;
    ghost var s := KnownBy(ins, lists, mine);
    LentIsReferenced(ins, k, j);
    copy := ins.IndexnodeCopy(lists[k].items[j]);
    assert KnownBy(ins, lists, mine + [copy]).seen == s.seen;
    assert Items(lists) == s.lent;
  }

  method ServeDeleteNode(ins: Indexnodes, k: nat, lists: seq<IndexnodesList>, mine: seq<Indexnode>)
    requires ins.Valid() && ins.lists == lists && ins.handles == multiset(mine) && k < |mine|
    modifies ins`handles, ins.nodes`refCount, ins.nodes`freed
    ensures ins.Valid() && ins.handles == multiset(Without(mine, k))
    ensures Effect(old(KnownBy(ins, lists, mine)), DeleteNode(k), KnownBy(ins, lists, Without(mine, k)))
  {
    hide Indexnodes.Valid, Without;
    ghost var s := KnownBy(ins, lists, mine);
    HandleIsNode(ins, mine, k);
    ins.IndexnodeDelete(mine[k]);
    assert KnownBy(ins, lists, Without(mine, k)).seen == s.seen;
    assert Items(lists) == s.lent;
  }

  lemma ItemsWithout(lists: seq<IndexnodesList>, k: nat)
    requires k < |lists|
    ensures Items(Without(lists, k)) == Without(Items(lists), k)
  {}

  lemma LentIsReferenced(ins: Indexnodes, k: nat, j: nat)
    requires ins.Valid() && k < |ins.lists| && j < |ins.lists[k].items|
    ensures ins.lists[k].items[j] in ins.References() && ins.lists[k].items[j] in ins.nodes
  {
    OccurrencesWithout(ins.lists, k);
    assert ins.lists[k].items[j] in multiset(ins.lists[k].items);
  }

  lemma HandleIsNode(ins: Indexnodes, mine: seq<Indexnode>, k: nat)
    requires ins.Valid() && ins.handles == multiset(mine) && k < |mine|
    ensures mine[k] in ins.handles && mine[k] in ins.nodes
    ensures multiset(Without(mine, k)) == multiset(mine) - multiset{mine[k]}
  {
    assert mine[k] in ins.References();
    WithoutMultiset(mine, k);
  }

  /** Once the callers have given back what they hold, deleting the manager frees every node there has been. */
  method CloseDown(ins: Indexnodes, lists: seq<IndexnodesList>, mine: seq<Indexnode>)
    requires ins.Valid() && ins.lists == lists && ins.handles == multiset(mine)
    modifies ins, ins.nodes
    ensures ins.nodes == old(ins.nodes) && forall n :: n in ins.nodes ==> n.freed && n.refCount == 0
  {
    hide Indexnodes.Valid, Indexnodes.References, Balanced, Occurrences, Without;
    var rest, left := mine, lists;
    while rest != []
      invariant ins.Valid() && ins.lists == lists && ins.handles == multiset(rest)
      invariant ins.nodes == old(ins.nodes) && ins.list == old(ins.list)
      decreases |rest|
    {
      HandleIsNode(ins, rest, 0);
      ins.IndexnodeDelete(rest[0]);
      rest := Without(rest, 0);
    }
    while left != []
      invariant ins.Valid() && ins.lists == left && ins.handles == multiset{}
      invariant ins.nodes == old(ins.nodes) && ins.list == old(ins.list)
      decreases |left|
    {
      ins.IndexnodesListDelete(left[0], 0);
      left := Without(left, 0);
    }
    ins.Delete();
  }

  /** A whole life of the manager: any calls, of which those are made that may be, and the end of it.  From each
      state to the next there is the effect of one call; every state has its counts balanced and its ids unique; and
      in the end every node there has been is freed. */
  method Session(calls: seq<Call>) returns (ghost trace: seq<Known>, ghost accounts: seq<Account>)
    ensures |trace| == |accounts| == |calls| + 1 && trace[0] == NothingKnown
    ensures forall i :: 0 <= i <= |calls| ==> Sound(trace[i], accounts[i])
    ensures forall i :: 0 <= i < |calls| ==> Step(trace[i], calls[i], trace[i + 1])
    ensures forall n :: n in trace[|calls|].seen ==> n.freed && n.refCount == 0
  {
    hide Indexnodes.Valid, Indexnodes.References, Allowed, Effect, AccountOf, KnownBy, Sound;
    var ins := new Indexnodes();
    var lists: seq<IndexnodesList>, mine: seq<Indexnode> := [], [];
    ValidIsSound(ins, lists, mine);
    KnownIs(ins, lists, mine);
    trace, accounts := [KnownBy(ins, lists, mine)], [AccountOf(ins.nodes)];
    var i := 0;
    while i < |calls|
      invariant 0 <= i <= |calls| && |trace| == |accounts| == i + 1
      invariant ins.Valid() && ins.lists == lists && ins.handles == multiset(mine)
      invariant fresh(ins) && fresh(ins.list) && fresh(ins.nodes)
      invariant trace[0] == NothingKnown
      invariant trace[i] == KnownBy(ins, lists, mine) && accounts[i] == AccountOf(ins.nodes)
      invariant forall k :: 0 <= k <= i ==> Sound(trace[k], accounts[k])
      invariant forall k :: 0 <= k < i ==> Step(trace[k], calls[k], trace[k + 1])
    {
      KnownIs(ins, lists, mine);
      if Allowed(calls[i], ins.list.items, Items(lists), mine) {
        lists, mine := Serve(ins, calls[i], lists, mine);
      }
      trace, accounts := trace + [KnownBy(ins, lists, mine)], accounts + [AccountOf(ins.nodes)];
      i := i + 1;
    }
    KnownIs(ins, lists, mine);
    CloseDown(ins, lists, mine);
  }

  lemma OneNodePerId(items: seq<Indexnode>, id: string)
    requires IdsDiffer(items)
    ensures !Knows(items, id) ==> forall n :: n in items ==> n.id != id
    ensures forall m, n :: m in items && n in items && m.id == n.id == id ==> m == n
  {}

  lemma AllFreed(nodes: set<Indexnode>, held: multiset<Indexnode>)
    requires Balanced(nodes, held) && held == multiset{}
    ensures forall n :: n in nodes ==> n.freed && n.refCount == 0
  {}

  lemma Swapped(a: multiset<Indexnode>, b: seq<Indexnode>, o: multiset<Indexnode>, h: multiset<Indexnode>)
    ensures a <= a + o + h && a + o + h - a + multiset(b) == multiset(b) + o + h
  {}

  lemma Moved(a: multiset<Indexnode>, r: multiset<Indexnode>, o: multiset<Indexnode>, h: multiset<Indexnode>)
    ensures a + o + h + r == a + (r + o) + h
  {}

  lemma OneHandleLess(rest: multiset<Indexnode>, h: multiset<Indexnode>, node: Indexnode)
    requires node in h
    ensures node in rest + h && rest + h - multiset{node} == rest + (h - multiset{node})
  {}

  lemma Removed(a: multiset<Indexnode>, r: multiset<Indexnode>, o: multiset<Indexnode>, h: multiset<Indexnode>)
    ensures r <= a + (r + o) + h && a + (r + o) + h - r == a + o + h
  {}

  lemma OccurrencesCons(list: IndexnodesList, lists: seq<IndexnodesList>)
    ensures Occurrences([list] + lists) == multiset(list.items) + Occurrences(lists)
  {
    assert ([list] + lists)[1..] == lists;
  }
}
