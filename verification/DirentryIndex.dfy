/** The index of scrap/direntry_cache.c in the table of scrap/hash_table.c: what every run of the cache asks of the
    table, and that the table can always do it. */
module DirentryIndexes {
  import opened DirentryCaches
  import opened DirentryStates
  import opened DirentryTrees
  import opened HashTableSpec

  lemma {:induction false} Then(m: map<string, Direntry>, a: seq<Op<Direntry>>, b: seq<Op<Direntry>>, kept: string)
    requires Keeping(m, a, kept) && Keeping(MapAfter(m, a), b, kept)
    ensures Keeping(m, a + b, kept) && MapAfter(m, a + b) == MapAfter(MapAfter(m, a), b)
    decreases |a|
  {
    if a == [] {
      assert a + b == b;
    } else {
      assert (a + b)[0] == a[0] && (a + b)[1..] == a[1..] + b;
      Then(MapApplied(m, a[0]), a[1..], b, kept);
    }
  }

  // The removals for a subtree leave what is not of it.
  lemma {:induction false} DelOpsDo(m: map<string, Direntry>, t: Tree, kept: string)
    requires kept !in PathsOf(Nodes(t))
    ensures Keeping(m, DelOps(t), kept) && MapAfter(m, DelOps(t)) == m - PathsOf(Nodes(t))
    decreases t, 0
  {
    InParts(NodesAll(t.kids), multiset{t.node});
    assert NodesAll(t.kids) + multiset{t.node} == Nodes(t);
    DelOpsAllDo(m, t.kids, kept);
    assert PathsOf(multiset{t.node}) == {t.node.path};
    OneOp(m - PathsOf(NodesAll(t.kids)), Remove(t.node.path), kept);
    Then(m, DelOpsAll(t.kids), [Remove(t.node.path)], kept);
    WithoutTop(m, t);
  }

  lemma {:induction false} DelOpsAllDo(m: map<string, Direntry>, ts: seq<Tree>, kept: string)
    requires kept !in PathsOf(NodesAll(ts))
    ensures Keeping(m, DelOpsAll(ts), kept) && MapAfter(m, DelOpsAll(ts)) == m - PathsOf(NodesAll(ts))
    decreases ts, 1
  {
    if ts != [] {
      var n := |ts| - 1;
      NodesAllSnoc(ts, n);
      assert ts[..n + 1] == ts;
      InParts(NodesAll(ts[..n]), Nodes(ts[n]));
      DelOpsAllDo(m, ts[..n], kept);
      DelOpsDo(m - PathsOf(NodesAll(ts[..n])), ts[n], kept);
      Then(m, DelOpsAll(ts[..n]), DelOps(ts[n]), kept);
      WithoutKid(m, ts, n);
    }
  }

  lemma InParts(a: multiset<Direntry>, b: multiset<Direntry>)
    ensures PathsOf(a + b) == PathsOf(a) + PathsOf(b)
  {
    assert forall n :: n in a + b <==> n in a || n in b;
  }

  lemma OneOp(m: map<string, Direntry>, op: Op<Direntry>, kept: string)
    requires match op case Insert(key, _) => key !in m case Remove(key) => key != kept
    ensures Keeping(m, [op], kept) && MapAfter(m, [op]) == MapApplied(m, op)
  {
    assert [op][1..] == [];
  }

  lemma {:induction false} AddOpsDo(m: map<string, Direntry>, ds: seq<Direntry>, kept: string)
    requires PathsDiffer(ds) && forall d :: d in ds ==> d.path !in m
    ensures Keeping(m, AddOps(ds), kept) && MapAfter(m, AddOps(ds)) == Indexed(m, ds)
    decreases |ds|
  {
    if ds != [] {
      var some, last := ds[..|ds| - 1], ds[|ds| - 1];
      AddOpsDo(m, some, kept);
      IndexedKeys(m, some);
      LastIsNew(ds);
      OneOp(Indexed(m, some), Insert(last.path, last), kept);
      Then(m, AddOps(some), [Insert(last.path, last)], kept);
    }
  }

  lemma DiscardOneOpsDo(m: map<string, Direntry>, o: Tree, ds: seq<Direntry>, kept: string)
    requires kept != o.node.path && (Kept(o.node.path, ds) || kept !in PathsOf(NodesAll(o.kids)))
    ensures Keeping(m, DiscardOneOps(o, ds), kept)
    ensures MapAfter(m, DiscardOneOps(o, ds))
         == m - (if Kept(o.node.path, ds) then {} else PathsOf(NodesAll(o.kids))) - {o.node.path}
  {
    var gone := if Kept(o.node.path, ds) then {} else PathsOf(NodesAll(o.kids));
    var below := if Kept(o.node.path, ds) then [] else DelOpsAll(o.kids);
    if !Kept(o.node.path, ds) {
      DelOpsAllDo(m, o.kids, kept);
    }
    OneOp(m - gone, Remove(o.node.path), kept);
    Then(m, below, [Remove(o.node.path)], kept);
  }

  lemma {:induction false} DiscardOpsDo(m: map<string, Direntry>, olds: seq<Tree>, ds: seq<Direntry>, kept: string)
    requires kept !in PathsOf(Dropped(olds, ds))
    ensures Keeping(m, DiscardOps(olds, ds), kept) && MapAfter(m, DiscardOps(olds, ds)) == m - PathsOf(Dropped(olds, ds))
    decreases |olds|
  {
    hide Kept, DiscardOneOps;
    if olds != [] {
      var n := |olds| - 1;
      var o := olds[n];
      var below := if Kept(o.node.path, ds) then multiset{} else NodesAll(o.kids);
      InParts(Dropped(olds[..n], ds), multiset{o.node} + below);
      InParts(multiset{o.node}, below);
      assert PathsOf(multiset{o.node}) == {o.node.path};
      DiscardOpsDo(m, olds[..n], ds, kept);
      DiscardOneOpsDo(m - PathsOf(Dropped(olds[..n], ds)), o, ds, kept);
      Then(m, DiscardOps(olds[..n], ds), DiscardOneOps(o, ds), kept);
      WithoutOld(m, olds, ds, n);
      assert olds[..n + 1] == olds;
    } else {
      WithoutNothing(m, olds, ds);
    }
  }

  // Nothing but the root itself has its path.
  lemma RootStays(s: State, x: Tree)
    requires Sound(s) && x in Subtrees(s.tree)
    ensures s.tree.node.path !in PathsOf(NodesAll(x.kids))
  {
    var t := s.tree;
    OnceParts(multiset{t.node}, NodesAll(t.kids));
    assert t.node in multiset{t.node};
    if x != t {
      SubtreeNodesAll(t.kids, x);
    }
    assert NodesAll(x.kids) <= NodesAll(t.kids);
    forall n | n in NodesAll(x.kids)
      ensures n.path != t.node.path
    {
      assert n in NodesAll(t.kids) && n in Nodes(t) && t.node in Nodes(t);
    }
  }

  // What follows for the table from these operations, in a state and the next.
  ghost predicate Asked(s: State, s': State, more: seq<Op<Direntry>>) {
    && s'.ops == s.ops + more
    && Keeping(s.table, more, s.tree.node.path) && MapAfter(s.table, more) == s'.table
  }

  lemma ListOps(s: State, s': State, parent: Direntry, ds: seq<Direntry>, now: int)
    requires Unused(ds, s.born) && (forall d :: d in ds ==> d.path !in s.table) && Listed(s, s', parent, ds, now)
    ensures Asked(s, s', AddOps(ds))
  {
    AddOpsDo(s.table, ds, s.tree.node.path);
  }

  lemma RootIsNotDropped(s: State, x: Tree, ds: seq<Direntry>)
    requires Sound(s) && x in Subtrees(s.tree)
    ensures s.tree.node.path !in PathsOf(Dropped(x.kids, ds))
  {
    hide Sound;
    RootStays(s, x);
    DroppedOrCarried(x.kids, ds);
    InParts(Dropped(x.kids, ds), Carried(x.kids, ds));
  }

  lemma NewPathsAreFree(s: State, x: Tree, ds: seq<Direntry>)
    requires Sound(s)
    requires forall d :: d in ds && d.path in s.table ==> s.table[d.path] in Heads(x.kids)
    ensures forall d :: d in ds ==> d.path !in s.table - PathsOf(Dropped(x.kids, ds))
  {
    OldPathsLeave(x.kids, ds, s.table, Nodes(s.tree));
  }

  lemma RelistOps(s: State, s': State, x: Tree, ds: seq<Direntry>, now: int)
    requires Sound(s) && x in Subtrees(s.tree) && Unused(ds, s.born)
    requires forall d :: d in ds && d.path in s.table ==> s.table[d.path] in Heads(x.kids)
    requires Relisted(s, s', x, ds, now)
    ensures Asked(s, s', DiscardOps(x.kids, ds) + AddOps(ds))
  {
    hide Sound, Nodes, Dropped, PathsOf, Indexed, DiscardOps, AddOps, Keeping, MapAfter, Subtrees, Replace, Regrown, Untouched,
      Entered;
    RootIsNotDropped(s, x, ds);
    NewPathsAreFree(s, x, ds);
    DiscardOpsDo(s.table, x.kids, ds, s.tree.node.path);
    AddOpsDo(s.table - PathsOf(Dropped(x.kids, ds)), ds, s.tree.node.path);
    Then(s.table, DiscardOps(x.kids, ds), AddOps(ds), s.tree.node.path);
    assert s.ops + DiscardOps(x.kids, ds) + AddOps(ds) == s.ops + (DiscardOps(x.kids, ds) + AddOps(ds));
  }

  lemma ClimbOps(s: State, s': State, d: Direntry, now: int, timeout: int, missing: set<Direntry>) returns (more: seq<Op<Direntry>>)
    requires Sound(s) && d in Nodes(s.tree) && Climbed(s, s', d, now, timeout, missing)
    ensures Asked(s, s', more)
  {
    var c := Chain(s.tree, d);
    ChainIsChain(s.tree, d);
    ChainInTree(s.tree, c, d);
    var k: nat :| ClimbEnds(s, c, k, now, timeout, missing) && Fell(s, s', c[k], now);
    RootStays(s, c[k]);
    more := DelOpsAll(c[k].kids);
    DelOpsAllDo(s.table, c[k].kids, s.tree.node.path);
  }

  /** What a call of the cache asks of the table, in the order of the source, are inserts of absent keys and removals of
      others than the root's, and the index changes by just those. */
  lemma StepOps(s: State, c: Call, s': State, a: Answer) returns (more: seq<Op<Direntry>>)
    requires Sound(s) && Step(s, c, s', a)
    ensures Asked(s, s', more) && s'.tree.node == s.tree.node
  {
    hide FindsWay, Climbed, Listed, Relisted, Expired, Asked, Once;
    more := [];
    if !Allowed(s, c) {
      NoOps(s, s');
      return;
    }
    match c {
      case List(parent, ds, now, _) =>
        more := AddOps(ds);
        ListOps(s, s', s.table[parent], ds, now);
        SameRoot(s, s', c, a);
      case Relist(parent, ds, now) =>
        var x :| x in Subtrees(s.tree) && x.node == s.table[parent] && Relisted(s, s', x, ds, now);
        more := DiscardOps(x.kids, ds) + AddOps(ds);
        RelistOps(s, s', x, ds, now);
        SameRoot(s, s', c, a);
      case Stale(path, now, timeout, missing) =>
        more := ClimbOps(s, s', s.table[path], now, timeout, missing);
        SameRoot(s, s', c, a);
      case Lookup(path, now, timeout, missing) =>
        if path in s.table && Expired(s, s.table[path], now, timeout) {
          more := ClimbOps(s, s', s.table[path], now, timeout, missing);
          SameRoot(s, s', c, a);
        } else {
          NoOps(s, s');
        }
    }
  }

  lemma NoOps(s: State, s': State)
    requires s'.ops == s.ops && s'.table == s.table
    ensures Asked(s, s', [])
  {}

  lemma SameRoot(s: State, s': State, c: Call, a: Answer)
    requires Effect(s, c, s', a)
    ensures s'.tree.node == s.tree.node
  {}

  // All that a run has asked of the table after its first n calls.
  lemma {:induction false} RunOps(trace: seq<State>, calls: seq<Call>, answers: seq<Answer>, root: Direntry, now: int, n: nat)
    requires IsRun(trace, calls, answers) && n <= |answers| && trace[0] == Initial(root, now)
    requires root.path == "/"
    ensures trace[n].tree.node == root && trace[0].ops <= trace[n].ops
    ensures Keeping(map[], trace[n].ops, "/") && MapAfter(map[], trace[n].ops) == trace[n].table
  {
    hide Step, Sound, Ordered, Keeping, MapAfter;
    if n == 0 {
      OneOp(map[], Insert("/", root), "/");
    } else {
      RunOps(trace, calls, answers, root, now, n - 1);
      var more := StepOps(trace[n - 1], calls[n - 1], trace[n], answers[n - 1]);
      Then(map[], trace[n - 1].ops, more, "/");
    }
  }

  /** In every run of the cache, from a new table on, all that is asked of the table it can do: it never divides by zero,
      is never left without a bucket, and holds exactly the index, if its minimum load is at most 1. */
  lemma IndexIsTable(trace: seq<State>, calls: seq<Call>, answers: seq<Answer>, root: Direntry, now: int, n: nat,
                     maxLoad: real, minLoad: real)
    requires IsRun(trace, calls, answers) && n <= |answers| && trace[0] == Initial(root, now)
    requires root.path == "/" && minLoad <= 1.0
    ensures Counted(New<Direntry>(maxLoad, minLoad))
    ensures Legal(New<Direntry>(maxLoad, minLoad), map[], trace[n].ops)
    ensures var t := TableAfter(New<Direntry>(maxLoad, minLoad), map[], trace[n].ops);
            t.Size() > 0 && Represents(t.buckets, trace[n].table)
  {
    hide Add;
    var t: Table<Direntry> := New(maxLoad, minLoad);
    var ops := trace[n].ops;
    RunOps(trace, calls, answers, root, now, n);
    assert ops[0] == Insert("/", root);
    NewIsEmpty<Direntry>(maxLoad, minLoad);
    AddKeepsMap(t, map[], "/", root);
    StepCounted(t, ops[0]);
    KeptIsLegal(Applied(t, ops[0]), MapApplied(map[], ops[0]), ops[1..], "/");
  }

  lemma NewIsEmpty<D>(maxLoad: real, minLoad: real)
    ensures Counted(New<D>(maxLoad, minLoad)) && Represents(New<D>(maxLoad, minLoad).buckets, map[])
  {
    FlatEmpty<D>(INITIAL_SIZE);
  }
}
