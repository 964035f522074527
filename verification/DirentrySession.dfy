/** Whole runs of the directory cache of scrap/direntry_cache.c, from its root entry on. */
module DirentrySessions {
  import opened DirentryCaches
  import opened DirentryStates
  import opened DirentryTrees
  import opened HashTableSpec
  import opened Wrappers

  // The cache as a value, with the account of what came when.
  ghost function Snapshot(cache: DirentryCache, born: map<Direntry, nat>, time: nat): State
    reads cache, NodeSet(Subtrees(cache.tree))
  {
    var nodes := NodeSet(Subtrees(cache.tree));
    State(cache.tree, cache.table, map n | n in nodes :: n.parent, map n | n in nodes :: n.lastValid,
          (set n | n in nodes && n.lookedForChildren), born, time, cache.ops)
  }

  // As the parser leaves the entries that the cache has not had.
  ghost predicate Parsed(ds: set<Direntry>, born: map<Direntry, nat>)
    reads ds
  {
    forall d :: d in ds && d !in born ==> d.children == [] && !d.lookedForChildren
  }

  lemma IndexedIsNode(cache: DirentryCache, path: string)
    requires cache.Valid() && path in cache.table
    ensures cache.table[path] in Nodes(cache.tree) && cache.table[path] in NodeSet(Subtrees(cache.tree))
    ensures cache.table[path].path == path && Once(Nodes(cache.tree))
  {
    NodeSetIsNodes(cache.tree);
  }

  lemma FewerInSet(t: Tree, t': Tree)
    requires forall n :: n in Nodes(t') ==> n in Nodes(t)
    ensures NodeSet(Subtrees(t')) <= NodeSet(Subtrees(t))
  {
    NodeSetIsNodes(t);
    NodeSetIsNodes(t');
    forall n | n in NodeSet(Subtrees(t'))
      ensures n in NodeSet(Subtrees(t))
    {
      assert n in Nodes(t') && n in Nodes(t);
    }
  }

  lemma NodesAfter(t: Tree, t': Tree, went: multiset<Direntry>, came: seq<Direntry>)
    requires Nodes(t') + went == Nodes(t) + multiset(came)
    ensures NodeSet(Subtrees(t')) <= NodeSet(Subtrees(t)) + Elems(came)
  {
    NodeSetIsNodes(t);
    NodeSetIsNodes(t');
    forall n | n in NodeSet(Subtrees(t'))
      ensures n in NodeSet(Subtrees(t)) + Elems(came)
    {
      assert n in Nodes(t') && n in Nodes(t') + went && n in Nodes(t) + multiset(came);
      if n in Nodes(t) {
        assert n in NodeSet(Subtrees(t));
      }
    }
  }

  // ---------- Whether a climb would find its way ----------

  // How a climb fares: it gets to an entry where it ends, it meets a wrong link, or it has still to go on.
  datatype Way = Stops | Strays | GoesOn

  // One step of a climb, from d to what should be its parent.
  function StepUp(d: Direntry, above: Direntry, now: int, timeout: int, missing: set<Direntry>): Way
    reads d`parent, above`lastValid
  {
    if d.parent != above then Strays
    else if above.isRoot || !IsStale(above, now, timeout, missing) then Stops
    else GoesOn
  }

  // A climb from entry i of the way.
  ghost function WayFrom(c: seq<Tree>, i: nat, now: int, timeout: int, missing: set<Direntry>): Way
    requires i < |c|
    reads NodeSet(set x | x in c)`parent, NodeSet(set x | x in c)`lastValid
    decreases i
  {
    if i == 0 then GoesOn
    else
      var step := StepUp(c[i].node, c[i - 1].node, now, timeout, missing);
      if step == GoesOn then WayFrom(c, i - 1, now, timeout, missing) else step
  }

  lemma {:induction false} WayOnTop(t: Tree, c: seq<Tree>, i: nat, now: int, timeout: int, missing: set<Direntry>)
    requires i < |c|
    ensures var below := WayFrom(c, i, now, timeout, missing);
            WayFrom([t] + c, i + 1, now, timeout, missing)
              == if below == GoesOn then StepUp(c[0].node, t.node, now, timeout, missing) else below
    decreases i
  {
    if i > 0 {
      WayOnTop(t, c, i - 1, now, timeout, missing);
    }
  }

  // Entry k is where a climb from entry i ends, and the links up to it are right.
  ghost predicate EndsAt(c: seq<Tree>, i: nat, k: nat, now: int, timeout: int, missing: set<Direntry>)
    requires i < |c|
    reads NodeSet(set x | x in c)`parent, NodeSet(set x | x in c)`lastValid
  {
    && k < i && (k == 0 || !IsStale(c[k].node, now, timeout, missing))
    && (forall j :: k < j < i ==> IsStale(c[j].node, now, timeout, missing))
    && forall j :: k < j <= i ==> c[j].node.parent == c[j - 1].node
  }

  lemma {:induction false} WayStops(c: seq<Tree>, i: nat, now: int, timeout: int, missing: set<Direntry>)
    requires i < |c| && forall j :: 0 <= j < |c| ==> (c[j].node.isRoot <==> j == 0)
    ensures WayFrom(c, i, now, timeout, missing) == Stops <==> exists k: nat :: EndsAt(c, i, k, now, timeout, missing)
    decreases i
  {
    if i > 0 {
      var h := i - 1;
      WayStops(c, h, now, timeout, missing);
      var step := StepUp(c[i].node, c[h].node, now, timeout, missing);
      forall k: nat
        ensures EndsAt(c, i, k, now, timeout, missing) ==> c[i].node.parent == c[h].node
        ensures step == GoesOn ==> (EndsAt(c, i, k, now, timeout, missing) <==> EndsAt(c, h, k, now, timeout, missing))
      {
      }
      if step == Stops {
        assert EndsAt(c, i, h, now, timeout, missing);
      }
    }
  }

  lemma ChainStep(t: Tree, d: Direntry, i: nat)
    requires i < |t.kids| && t.node != d && d !in NodesAll(t.kids[..i]) && d in Nodes(t.kids[i])
    ensures d in Nodes(t) && Chain(t, d) == [t] + Chain(t.kids[i], d)
    ensures Chain(t.kids[i], d) != [] && Chain(t.kids[i], d)[0] == t.kids[i]
  {
    KidNodes(t.kids, i);
    FirstWith(t.kids, d, i);
    ChainIsChain(t.kids[i], d);
  }

  lemma {:induction false} FirstWith(ts: seq<Tree>, d: Direntry, i: nat)
    requires i < |ts| && d !in NodesAll(ts[..i]) && d in Nodes(ts[i])
    ensures ChainAll(ts, d) == Chain(ts[i], d) != []
    decreases i
  {
    if i == 0 {
      ChainIsChain(ts[0], d);
    } else {
      assert ts[..i][0] == ts[0] && ts[..i][1..] == ts[1..][..i - 1];
      ChainAbsent(ts[0], d);
      FirstWith(ts[1..], d, i - 1);
    }
  }

  // The climb from d fares so at and below the top of t.
  ghost predicate Fares(t: Tree, d: Direntry, way: Way, now: int, timeout: int, missing: set<Direntry>)
    reads NodeSet(set x | x in Chain(t, d))`parent, NodeSet(set x | x in Chain(t, d))`lastValid
  {
    var c := Chain(t, d);
    c != [] && way == WayFrom(c, |c| - 1, now, timeout, missing)
  }

  lemma FaresInside(t: Tree, d: Direntry, i: nat, way: Way, now: int, timeout: int, missing: set<Direntry>)
    requires i < |t.kids| && t.node != d && d !in NodesAll(t.kids[..i]) && d in Nodes(t.kids[i])
    requires Fares(t.kids[i], d, way, now, timeout, missing)
    ensures d in Nodes(t)
    ensures Fares(t, d, if way == GoesOn then StepUp(t.kids[i].node, t.node, now, timeout, missing) else way, now, timeout, missing)
  {
    ChainStep(t, d, i);
    WayOnTop(t, Chain(t.kids[i], d), |Chain(t.kids[i], d)| - 1, now, timeout, missing);
  }

  // Is d at or below n, and if so, how does a climb from d fare up to n?
  method CanClimb(n: Direntry, d: Direntry, now: int, timeout: int, missing: set<Direntry>, ghost t: Tree)
      returns (found: bool, way: Way)
    requires t.node == n && Shaped(t)
    ensures found <==> d in Nodes(t)
    ensures found ==> Fares(t, d, way, now, timeout, missing)
    decreases t
  {
    hide Shaped, Subtrees, Chain, Fares, StepUp;
    ghost var nodes := NodeSet(Subtrees(t));
    ShapedAt(t);
    found, way := n == d, GoesOn;
    if found {
      TopFares(t, now, timeout, missing);
    }
    var i := 0;
    while i < |n.children| && !found
      invariant 0 <= i <= |t.kids| == |n.children| && (found <==> n == d || d in NodesAll(t.kids[..i]))
      invariant found ==> d in Nodes(t) && Fares(t, d, way, now, timeout, missing)
    {
      ShapedKid(t, i);
      NodesAllSnoc(t.kids, i);
      found, way := CanClimb(n.children[i], d, now, timeout, missing, t.kids[i]);
      if found {
        FaresInside(t, d, i, way, now, timeout, missing);
        if way == GoesOn {
          way := StepUp(n.children[i], n, now, timeout, missing);
        }
      }
      i := i + 1;
    }
    assert !found ==> t.kids[..i] == t.kids;
  }

  lemma TopFares(t: Tree, now: int, timeout: int, missing: set<Direntry>)
    ensures Fares(t, t.node, GoesOn, now, timeout, missing)
  {}

  lemma NodesOf(cache: DirentryCache, born: map<Direntry, nat>, time: nat)
    requires cache.Valid()
    ensures var s := Snapshot(cache, born, time);
            && Sound(s) && s.tree == cache.tree && s.table == cache.table && s.born == born && s.time == time
            && s.ops == cache.ops
            && s.under.Keys == s.valid.Keys == NodeSet(Subtrees(cache.tree))
            && (forall n :: n in s.under ==> s.under[n] == n.parent)
            && (forall n :: n in s.valid ==> s.valid[n] == n.lastValid)
            && s.looked == (set n | n in NodeSet(Subtrees(cache.tree)) && n.lookedForChildren)
  {}

  // ---------- The calls ----------

  // What goes is not there afterwards, and what comes is.
  lemma Flow(t: Tree, t': Tree, went: multiset<Direntry>, came: seq<Direntry>)
    requires Once(Nodes(t)) && went <= Nodes(t) && Nodes(t') + went == Nodes(t) + multiset(came)
    requires forall d :: d in came ==> d !in NodeSet(Subtrees(t))
    ensures NodeSet(Subtrees(t')) <= NodeSet(Subtrees(t)) + Elems(came)
    ensures Elems(came) <= NodeSet(Subtrees(t'))
    ensures forall n :: n in went ==> n !in NodeSet(Subtrees(t'))
  {
    hide Nodes, Subtrees, NodeSet;
    NodesAfter(t, t', went, came);
    NodeSetIsNodes(t);
    NodeSetIsNodes(t');
    forall d | d in came
      ensures d in NodeSet(Subtrees(t'))
    {
      assert d !in Nodes(t) && d in Nodes(t) + multiset(came) && d !in went;
      assert d in Nodes(t') + went;
    }
    forall n | n in went
      ensures n !in NodeSet(Subtrees(t'))
    {
      assert n in Nodes(t) && (Nodes(t) + multiset(came))[n] == 1 + multiset(came)[n];
      assert n !in came;
    }
  }

  lemma NodesBorn(cache: DirentryCache, born: map<Direntry, nat>, time: nat)
    requires cache.Valid() && Ordered(Snapshot(cache, born, time))
    ensures forall n :: n in NodeSet(Subtrees(cache.tree)) ==> n in born
  {
    NodeSetIsNodes(cache.tree);
    forall n | n in NodeSet(Subtrees(cache.tree))
      ensures n in born
    {
      assert n in Nodes(cache.tree);
    }
  }

  lemma NewOnes(ds: seq<Direntry>, born: map<Direntry, nat>, nodes: set<Direntry>)
    requires Unused(ds, born) && Parsed(Elems(ds), born) && forall n :: n in nodes ==> n in born
    ensures AreNew(ds, nodes) && forall d :: d in ds ==> !d.lookedForChildren
  {}

  lemma ChildrenAre(cache: DirentryCache, x: Tree)
    requires cache.Valid() && x in Subtrees(cache.tree)
    ensures x.node.children == Heads(x.kids) && x.node in NodeSet(Subtrees(cache.tree))
    ensures forall y :: y in Subtrees(cache.tree) && y.node == x.node ==> Heads(y.kids) == Heads(x.kids)
  {}

  lemma ListedNodes(cache: DirentryCache, x: Tree, ds: seq<Direntry>)
    requires cache.Valid() && x in Subtrees(cache.tree) && forall d :: d in ds ==> d !in NodeSet(Subtrees(cache.tree))
    ensures var nodes := NodeSet(Subtrees(Replace(cache.tree, x.node, Leaves(ds))));
            nodes <= NodeSet(Subtrees(cache.tree)) + Elems(ds) && Elems(ds) <= nodes && x.node in nodes
  {
    hide Agrees, Shaped;
    var t := cache.tree;
    ReplaceNodes(t, x, Leaves(ds));
    LeavesNodes(ds);
    SubtreeHolds(t, x);
    Flow(t, Replace(t, x.node, Leaves(ds)), NodesAll(x.kids), ds);
    ReplaceHas(t, x, Leaves(ds));
  }

  // What a listing that may be made finds.
  lemma ListReady(cache: DirentryCache, parent: string, ds: seq<Direntry>, now: int, timeout: int,
                  born: map<Direntry, nat>, time: nat) returns (x: Tree)
    requires cache.Valid() && Ordered(Snapshot(cache, born, time))
    requires Allowed(Snapshot(cache, born, time), List(parent, ds, now, timeout)) && Parsed(Elems(ds), born)
    ensures parent in cache.table && x in Subtrees(cache.tree) && x.node == cache.table[parent] && x.node.children == []
    ensures cache.table[parent] in NodeSet(Subtrees(cache.tree))
    ensures AreNew(ds, NodeSet(Subtrees(cache.tree))) && forall d :: d in ds ==> !d.lookedForChildren
    ensures forall d :: d in ds ==> d.path !in cache.table && d !in NodeSet(Subtrees(cache.tree))
    ensures var nodes := NodeSet(Subtrees(Replace(cache.tree, x.node, Leaves(ds))));
            nodes <= NodeSet(Subtrees(cache.tree)) + Elems(ds) && Elems(ds) <= nodes && x.node in nodes
  {
    hide DirentryCache.Valid, Ordered, Nodes, Subtrees, Replace, Leaves;
    IndexedIsNode(cache, parent);
    NodesBorn(cache, born, time);
    NewOnes(ds, born, NodeSet(Subtrees(cache.tree)));
    x := HeadedBy(cache.tree, cache.table[parent]);
    ChildrenAre(cache, x);
    ListedNodes(cache, x, ds);
  }

  // The listing, and what it leaves as it was.
  method PutList(cache: DirentryCache, d: Direntry, ds: seq<Direntry>, now: int)
    requires cache.Valid() && d in NodeSet(Subtrees(cache.tree)) && d.children == []
    requires AreNew(ds, NodeSet(Subtrees(cache.tree))) && forall e :: e in ds ==> e.path !in cache.table
    modifies cache, NodeSet(Subtrees(cache.tree)), Elems(ds)
    ensures cache.Valid() && cache.tree == Replace(old(cache.tree), d, Leaves(ds)) && cache.table == Indexed(old(cache.table), ds)
    ensures cache.ops == old(cache.ops) + AddOps(ds)
    ensures forall e :: e in ds ==> e.parent == d && e.lastValid == now && e.lookedForChildren == old(e.lookedForChildren)
    ensures d.lookedForChildren
    ensures forall n :: n in old(NodeSet(Subtrees(cache.tree))) ==>
              && n.parent == old(n.parent) && n.lastValid == old(n.lastValid)
              && (n != d ==> n.lookedForChildren == old(n.lookedForChildren))
  {
    hide DirentryCache.Valid, DirentryCache.Linked, Nodes, Subtrees, Replace, Leaves, Indexed, Parented;
    ghost var nodes := NodeSet(Subtrees(cache.tree));
    cache.AddList(ds, d, now);
  }

  lemma ListIs(s: State, s': State, parent: string, ds: seq<Direntry>, now: int, timeout: int)
    requires Allowed(s, List(parent, ds, now, timeout)) && s'.time == s.time + 1 && Listed(s, s', s.table[parent], ds, now)
    ensures Effect(s, List(parent, ds, now, timeout), s', NoAnswer)
  {}

  method ServeList(cache: DirentryCache, parent: string, ds: seq<Direntry>, now: int, timeout: int,
                   ghost born: map<Direntry, nat>, ghost time: nat)
    requires cache.Valid() && Ordered(Snapshot(cache, born, time))
    requires Allowed(Snapshot(cache, born, time), List(parent, ds, now, timeout)) && Parsed(Elems(ds), born)
    modifies cache, NodeSet(Subtrees(cache.tree)), Elems(ds)
    ensures cache.Valid()
    ensures Effect(old(Snapshot(cache, born, time)), List(parent, ds, now, timeout),
                   Snapshot(cache, born + (map d | d in ds :: time), time + 1), NoAnswer)
    ensures NodeSet(Subtrees(cache.tree)) <= old(NodeSet(Subtrees(cache.tree))) + Elems(ds)
  {
    hide DirentryCache.Valid, Nodes, Subtrees, Replace, Leaves, Indexed, Ordered, AreNew, Allowed,
      Parsed, Snapshot, Sound, Effect;
    ghost var s, nodes := Snapshot(cache, born, time), NodeSet(Subtrees(cache.tree));
    ghost var x := ListReady(cache, parent, ds, now, timeout, born, time);
    ghost var d := cache.table[parent];
    NodesOf(cache, born, time);
    PutList(cache, cache.table[parent], ds, now);
    ghost var born' := born + (map d | d in ds :: time);
    NodesOf(cache, born', time + 1);
    ghost var s' := Snapshot(cache, born', time + 1);
    ListIs(s, s', parent, ds, now, timeout);
  }

  lemma RelistedNodes(cache: DirentryCache, x: Tree, ds: seq<Direntry>)
    requires cache.Valid() && x in Subtrees(cache.tree) && AreNew(ds, NodeSet(Subtrees(cache.tree)))
    requires forall d :: d in ds && d.path in cache.table ==> cache.table[d.path] in Heads(x.kids)
    ensures var nodes := NodeSet(Subtrees(Replace(cache.tree, x.node, Regrown(ds, x.kids))));
            && nodes <= NodeSet(Subtrees(cache.tree)) + Elems(ds) && Elems(ds) <= nodes
            && forall n :: n in x.node.children ==> n !in nodes
  {
    hide Dropped, Regrown, Shaped, Agrees;
    var t := cache.tree;
    RegrownUnder(t, x, ds, cache.table);
    DroppedInTree(t, x, ds);
    Flow(t, Replace(t, x.node, Regrown(ds, x.kids)), Dropped(x.kids, ds), ds);
    ChildrenAre(cache, x);
    DroppedHeads(x.kids, ds);
  }

  lemma DroppedInTree(t: Tree, x: Tree, ds: seq<Direntry>)
    requires x in Subtrees(t)
    ensures Dropped(x.kids, ds) <= Nodes(t)
  {
    DroppedOrCarried(x.kids, ds);
    SubtreeHolds(t, x);
  }

  lemma OldChildrenAreNodes(cache: DirentryCache, d: Direntry)
    requires cache.Valid() && d in NodeSet(Subtrees(cache.tree))
    ensures forall k :: k in d.children ==> k in NodeSet(Subtrees(cache.tree))
  {
    var s := HeadedBy(cache.tree, d);
    forall k | k in d.children
      ensures k in NodeSet(Subtrees(cache.tree))
    {
      var i :| 0 <= i < |s.kids| && s.kids[i].node == k;
      assert s.kids[i] in s.kids;
      KidsAreSubtrees(s.kids);
      SubtreeNodes(cache.tree, s);
    }
  }

  lemma RelistReady(cache: DirentryCache, parent: string, ds: seq<Direntry>, now: int,
                    born: map<Direntry, nat>, time: nat)
    requires cache.Valid() && Ordered(Snapshot(cache, born, time))
    requires Allowed(Snapshot(cache, born, time), Relist(parent, ds, now)) && Parsed(Elems(ds), born)
    ensures parent in cache.table && cache.table[parent] in NodeSet(Subtrees(cache.tree))
    ensures AreNew(ds, NodeSet(Subtrees(cache.tree))) && forall d :: d in ds ==> !d.lookedForChildren
    ensures forall d :: d in ds && d.path in cache.table ==> cache.table[d.path] in cache.table[parent].children
    ensures forall k :: k in cache.table[parent].children ==> k in NodeSet(Subtrees(cache.tree))
  {
    hide DirentryCache.Valid, Ordered, Nodes, Subtrees;
    IndexedIsNode(cache, parent);
    NodesBorn(cache, born, time);
    NewOnes(ds, born, NodeSet(Subtrees(cache.tree)));
    var x := HeadedBy(cache.tree, cache.table[parent]);
    ChildrenAre(cache, x);
    OldChildrenAreNodes(cache, x.node);
  }

  // The replacement, and what it leaves as it was.
  method PutChildren(cache: DirentryCache, d: Direntry, ds: seq<Direntry>, now: int) returns (ghost x: Tree)
    requires cache.Valid() && d in NodeSet(Subtrees(cache.tree)) && AreNew(ds, NodeSet(Subtrees(cache.tree)))
    requires forall e :: e in ds && e.path in cache.table ==> cache.table[e.path] in d.children
    requires forall k :: k in d.children ==> k in NodeSet(Subtrees(cache.tree))
    modifies cache, NodeSet(Subtrees(cache.tree)), Elems(ds)
    ensures cache.Valid() && x in Subtrees(old(cache.tree)) && x.node == d
    ensures cache.tree == Replace(old(cache.tree), d, Regrown(ds, x.kids))
    ensures cache.table == Indexed(old(cache.table) - PathsOf(Dropped(x.kids, ds)), ds)
    ensures cache.ops == old(cache.ops) + DiscardOps(x.kids, ds) + AddOps(ds)
    ensures forall e :: e in ds ==> e.parent == d && e.lastValid == now && e.lookedForChildren == old(e.lookedForChildren)
    ensures forall n :: n in old(NodeSet(Subtrees(cache.tree))) ==>
              && n.parent == old(n.parent) && n.lastValid == old(n.lastValid)
              && (n in NodeSet(Subtrees(cache.tree)) ==> n.lookedForChildren == old(n.lookedForChildren))
    ensures NodeSet(Subtrees(cache.tree)) <= old(NodeSet(Subtrees(cache.tree))) + Elems(ds)
    ensures Elems(ds) <= NodeSet(Subtrees(cache.tree))
  {
    hide DirentryCache.Valid, DirentryCache.Linked, Nodes, Subtrees, Replace, Regrown, Indexed, Parented, Dropped, PathsOf,
      NothingInherited;
    ghost var nodes, t, table := NodeSet(Subtrees(cache.tree)), cache.tree, cache.table;
    ghost var y := HeadedBy(t, d);
    ChildrenAre(cache, y);
    x := y;
    forall x | x in Subtrees(t) && x.node == d
      ensures var nodes' := NodeSet(Subtrees(Replace(t, d, Regrown(ds, x.kids))));
              && nodes' <= nodes + Elems(ds) && Elems(ds) <= nodes'
              && forall n :: n in old(d.children) ==> n !in nodes'
    {
      ChildrenAre(cache, x);
      RelistedNodes(cache, x, ds);
    }
    x := cache.AddChildren(d, ds, now);
  }

  lemma RelistIs(s: State, s': State, parent: string, x: Tree, ds: seq<Direntry>, now: int)
    requires Allowed(s, Relist(parent, ds, now)) && s'.time == s.time + 1
    requires x in Subtrees(s.tree) && x.node == s.table[parent] && Relisted(s, s', x, ds, now)
    ensures Effect(s, Relist(parent, ds, now), s', NoAnswer)
  {}

  method ServeRelist(cache: DirentryCache, parent: string, ds: seq<Direntry>, now: int,
                     ghost born: map<Direntry, nat>, ghost time: nat)
    requires cache.Valid() && Ordered(Snapshot(cache, born, time))
    requires Allowed(Snapshot(cache, born, time), Relist(parent, ds, now)) && Parsed(Elems(ds), born)
    modifies cache, NodeSet(Subtrees(cache.tree)), Elems(ds)
    ensures cache.Valid()
    ensures Effect(old(Snapshot(cache, born, time)), Relist(parent, ds, now),
                   Snapshot(cache, born + (map d | d in ds :: time), time + 1), NoAnswer)
    ensures NodeSet(Subtrees(cache.tree)) <= old(NodeSet(Subtrees(cache.tree))) + Elems(ds)
  {
    hide DirentryCache.Valid, Nodes, Subtrees, Replace, Regrown, Indexed, Ordered, AreNew, Allowed, Dropped, PathsOf,
      Parsed, Snapshot, Sound, Effect;
    ghost var s, nodes := Snapshot(cache, born, time), NodeSet(Subtrees(cache.tree));
    RelistReady(cache, parent, ds, now, born, time);
    NodesOf(cache, born, time);
    ghost var x := PutChildren(cache, cache.table[parent], ds, now);
    ghost var born' := born + (map d | d in ds :: time);
    NodesOf(cache, born', time + 1);
    ghost var s' := Snapshot(cache, born', time + 1);
    RelistIs(s, s', parent, x, ds, now);
  }

  // What a climb leaves, as seen between calls.
  lemma FellTo(t: Tree, x: Tree)
    requires x in Subtrees(t) && Nodes(Replace(t, x.node, [])) + NodesAll(x.kids) == Nodes(t)
    ensures NodeSet(Subtrees(Replace(t, x.node, []))) <= NodeSet(Subtrees(t))
    ensures x.node in NodeSet(Subtrees(Replace(t, x.node, [])))
  {
    FewerNodes(Nodes(t), Nodes(Replace(t, x.node, [])), NodesAll(x.kids));
    FewerInSet(t, Replace(t, x.node, []));
    ReplaceHas(t, x, []);
  }

  lemma SameWay(cache: DirentryCache, born: map<Direntry, nat>, time: nat, d: Direntry, k: nat)
    requires cache.Valid() && d in Nodes(cache.tree)
    ensures RightTo(Snapshot(cache, born, time), d, k) <==> WayUpTo(cache.tree, d, k)
  {
    var s, c := Snapshot(cache, born, time), Chain(cache.tree, d);
    ChainIsChain(cache.tree, d);
    ChainInTree(cache.tree, c, d);
    if RightTo(s, d, k) {
      forall i | k < i < |c|
        ensures c[i].node.parent == c[i - 1].node
      {
        assert s.under[c[i].node] == c[i - 1].node;
      }
    }
    if WayUpTo(cache.tree, d, k) {
      forall i | k < i < |c|
        ensures c[i].node in s.under && s.under[c[i].node] == c[i - 1].node
      {
        assert c[i].node.parent == c[i - 1].node;
      }
    }
  }

  lemma SameExpiry(cache: DirentryCache, born: map<Direntry, nat>, time: nat, now: int, timeout: int)
    ensures forall d :: d in NodeSet(Subtrees(cache.tree)) ==>
              (Expired(Snapshot(cache, born, time), d, now, timeout) <==> IsExpired(d, now, timeout))
  {}

  lemma SameEnd(cache: DirentryCache, born: map<Direntry, nat>, time: nat, d: Direntry, k: nat,
                now: int, timeout: int, missing: set<Direntry>)
    requires cache.Valid() && d in Nodes(cache.tree)
    ensures var c := Chain(cache.tree, d);
            && (d.isRoot <==> |c| == 1) && c != []
            && (ClimbEnds(Snapshot(cache, born, time), c, k, now, timeout, missing) <==>
                  var from := if d.isRoot then 0 else |c| - 2; k <= from && Nearest(c, from, k, now, timeout, missing))
  {
    var s, c := Snapshot(cache, born, time), Chain(cache.tree, d);
    SameExpiry(cache, born, time, now, timeout);
    ChainIsChain(cache.tree, d);
    ChainInTree(cache.tree, c, d);
  }

  lemma SameClimb(cache: DirentryCache, born: map<Direntry, nat>, time: nat, d: Direntry,
                  now: int, timeout: int, missing: set<Direntry>)
    requires cache.Valid() && d in Nodes(cache.tree)
    ensures FindsWay(Snapshot(cache, born, time), d, now, timeout, missing) <==> Climbable(cache.tree, d, now, timeout, missing)
  {
    hide DirentryCache.Valid, Snapshot, Chain, ClimbEnds, Nearest, RightTo, WayUpTo;
    NodesOf(cache, born, time);
    var s, c := Snapshot(cache, born, time), Chain(cache.tree, d);
    SameEnd(cache, born, time, d, 0, now, timeout, missing);
    forall k: nat
      ensures ClimbEnds(s, c, k, now, timeout, missing) && RightTo(s, d, k) <==>
                (var from := if d.isRoot then 0 else |c| - 2;
                 k <= from && Nearest(c, from, k, now, timeout, missing) && WayUpTo(cache.tree, d, k))
    {
      SameEnd(cache, born, time, d, k, now, timeout, missing);
      SameWay(cache, born, time, d, k);
    }
    if d.isRoot {
      RootEnds(c, now, timeout, missing);
      RootWay(cache.tree, d);
    }
  }

  lemma RootEnds(c: seq<Tree>, now: int, timeout: int, missing: set<Direntry>)
    requires |c| == 1
    ensures Nearest(c, 0, 0, now, timeout, missing)
  {}

  lemma RootWay(t: Tree, d: Direntry)
    requires |Chain(t, d)| == 1
    ensures WayUpTo(t, d, 0)
  {}

  lemma ClimbIs(s: State, s': State, d: Direntry, k: nat, now: int, timeout: int, missing: set<Direntry>)
    requires ClimbEnds(s, Chain(s.tree, d), k, now, timeout, missing) && Fell(s, s', Chain(s.tree, d)[k], now)
    ensures Climbed(s, s', d, now, timeout, missing)
  {}

  method ServeStale(cache: DirentryCache, path: string, now: int, timeout: int, missing: set<Direntry>,
                    ghost born: map<Direntry, nat>, ghost time: nat)
    requires cache.Valid() && Allowed(Snapshot(cache, born, time), Stale(path, now, timeout, missing))
    modifies cache, NodeSet(Subtrees(cache.tree))
    ensures cache.Valid()
    ensures Effect(old(Snapshot(cache, born, time)), Stale(path, now, timeout, missing),
                   Snapshot(cache, born, time + 1), NoAnswer)
    ensures NodeSet(Subtrees(cache.tree)) <= old(NodeSet(Subtrees(cache.tree)))
  {
    hide DirentryCache.Valid, DirentryCache.Linked, Nodes, Subtrees, Parented, Replace, Chain, Climbable, FindsWay, Snapshot, DelOpsAll,
      Sound, PathsOf, Nearest, ClimbEnds, Climbed;
    NodesOf(cache, born, time);
    IndexedIsNode(cache, path);
    ghost var s, nodes, t, d := Snapshot(cache, born, time), NodeSet(Subtrees(cache.tree)), cache.tree, cache.table[path];
    ghost var c := Chain(t, d);
    SameClimb(cache, born, time, d, now, timeout, missing);
    ClimbFacts(t, c, d);
    ghost var from := if d.isRoot then 0 else |c| - 2;
    forall k: nat | from >= 0 && k <= from && Nearest(c, from, k, now, timeout, missing)
      ensures ClimbEnds(s, c, k, now, timeout, missing)
    {
      SameEnd(cache, born, time, d, k, now, timeout, missing);
    }
    ghost var k := cache.NotifyStale(cache.table[path], now, timeout, missing);
    FellTo(t, c[k]);
    NodesOf(cache, born, time + 1);
    ClimbIs(s, Snapshot(cache, born, time + 1), d, k, now, timeout, missing);
  }

  lemma LookupIs(s: State, s': State, path: string, now: int, timeout: int, missing: set<Direntry>, a: Answer)
    requires Allowed(s, Lookup(path, now, timeout, missing)) && s'.time == s.time + 1
    requires if path in s.table && Expired(s, s.table[path], now, timeout)
             then a == Found(Unknown, None) && Climbed(s, s', s.table[path], now, timeout, missing)
             else s' == s.(time := s.time + 1) && a == LookedUp(s, path)
    ensures Effect(s, Lookup(path, now, timeout, missing), s', a)
  {}

  method ServeExpired(cache: DirentryCache, path: string, now: int, timeout: int, missing: set<Direntry>,
                      ghost born: map<Direntry, nat>, ghost time: nat) returns (status: Status, de: Option<Direntry>)
    requires cache.Valid() && Allowed(Snapshot(cache, born, time), Lookup(path, now, timeout, missing))
    requires path in cache.table && IsExpired(cache.table[path], now, timeout)
    modifies cache, NodeSet(Subtrees(cache.tree))
    ensures cache.Valid()
    ensures Effect(old(Snapshot(cache, born, time)), Lookup(path, now, timeout, missing),
                   Snapshot(cache, born, time + 1), Found(status, de))
    ensures NodeSet(Subtrees(cache.tree)) <= old(NodeSet(Subtrees(cache.tree)))
  {
    hide DirentryCache.Valid, DirentryCache.Linked, Nodes, Subtrees, Parented, Replace, Chain, Climbable, FindsWay, Snapshot, DelOpsAll,
      Sound, PathsOf, Nearest, ClimbEnds, Climbed, Expired, IsExpired, Dirname, Effect;
    NodesOf(cache, born, time);
    IndexedIsNode(cache, path);
    ghost var s, nodes, t, d := Snapshot(cache, born, time), NodeSet(Subtrees(cache.tree)), cache.tree, cache.table[path];
    ghost var c := Chain(t, d);
    SameExpiry(cache, born, time, now, timeout);
    SameClimb(cache, born, time, d, now, timeout, missing);
    ClimbFacts(t, c, d);
    ExpiredIsNotRoot(d, now, timeout);
    forall k: nat | k < |c| - 1 && Nearest(c, |c| - 2, k, now, timeout, missing)
      ensures ClimbEnds(s, c, k, now, timeout, missing)
    {
      SameEnd(cache, born, time, d, k, now, timeout, missing);
    }
    ghost var k;
    status, de, k := cache.Get(path, now, timeout, missing);
    NodesOf(cache, born, time + 1);
    ghost var s' := Snapshot(cache, born, time + 1);
    FellTo(t, c[k]);
    ClimbIs(s, s', d, k, now, timeout, missing);
    LookupIs(s, s', path, now, timeout, missing, Found(status, de));
  }

  lemma LooksUp(cache: DirentryCache, born: map<Direntry, nat>, time: nat, path: string)
    requires cache.Valid()
    ensures var dir := Dirname(path);
            LookedUp(Snapshot(cache, born, time), path) ==
              if path in cache.table then Found(Hit, Some(cache.table[path]))
              else Found(if dir in cache.table && cache.table[dir].lookedForChildren then NoEnt else Unknown, None)
  {
    IndexIsNodes(cache);
  }

  // A lookup that finds no expired entry changes nothing.
  method LookOnly(cache: DirentryCache, path: string, now: int, timeout: int, missing: set<Direntry>)
      returns (status: Status, de: Option<Direntry>)
    requires cache.Valid() && (path in cache.table ==> !IsExpired(cache.table[path], now, timeout))
    modifies cache, NodeSet(Subtrees(cache.tree))
    ensures cache.Valid() && cache.table == old(cache.table) && cache.tree == old(cache.tree) && cache.ops == old(cache.ops)
    ensures forall n :: n in NodeSet(Subtrees(cache.tree)) ==>
              n.parent == old(n.parent) && n.lastValid == old(n.lastValid) && n.lookedForChildren == old(n.lookedForChildren)
    ensures var dir := Dirname(path);
            Found(status, de) == old(
              if path in cache.table then Found(Hit, Some(cache.table[path]))
              else Found(if dir in cache.table && cache.table[dir].lookedForChildren then NoEnt else Unknown, None))
  {
    hide DirentryCache.Valid, DirentryCache.Linked, Nodes, Subtrees, Parented, Replace, Chain, Climbable, PathsOf, Nearest,
      IsExpired, Dirname;
    ghost var nodes := NodeSet(Subtrees(cache.tree));
    IndexIsNodes(cache);
    ghost var k;
    status, de, k := cache.Get(path, now, timeout, missing);
  }

  method ServeUnexpired(cache: DirentryCache, path: string, now: int, timeout: int, missing: set<Direntry>,
                        ghost born: map<Direntry, nat>, ghost time: nat) returns (status: Status, de: Option<Direntry>)
    requires cache.Valid() && Allowed(Snapshot(cache, born, time), Lookup(path, now, timeout, missing))
    requires path in cache.table ==> !IsExpired(cache.table[path], now, timeout)
    modifies cache, NodeSet(Subtrees(cache.tree))
    ensures cache.Valid()
    ensures Effect(old(Snapshot(cache, born, time)), Lookup(path, now, timeout, missing),
                   Snapshot(cache, born, time + 1), Found(status, de))
    ensures NodeSet(Subtrees(cache.tree)) <= old(NodeSet(Subtrees(cache.tree)))
  {
    hide DirentryCache.Valid, DirentryCache.Linked, Nodes, Subtrees, Parented, Replace, Chain, Climbable, FindsWay, Snapshot, DelOpsAll,
      Sound, PathsOf, Nearest, Climbed, Expired, IsExpired, Dirname, Effect, LookedUp;
    NodesOf(cache, born, time);
    IndexIsNodes(cache);
    LooksUp(cache, born, time, path);
    ghost var s, nodes := Snapshot(cache, born, time), NodeSet(Subtrees(cache.tree));
    SameExpiry(cache, born, time, now, timeout);
    status, de := LookOnly(cache, path, now, timeout, missing);
    NodesOf(cache, born, time + 1);
    ghost var s' := Snapshot(cache, born, time + 1);
    assert s'.under == s.under && s'.valid == s.valid && s'.looked == s.looked;
    LookupIs(s, s', path, now, timeout, missing, Found(status, de));
  }

  lemma IndexIsNodes(cache: DirentryCache)
    requires cache.Valid()
    ensures forall p :: p in cache.table ==> cache.table[p] in NodeSet(Subtrees(cache.tree)) && cache.table[p] in Nodes(cache.tree)
    ensures Once(Nodes(cache.tree))
  {
    NodeSetIsNodes(cache.tree);
  }

  lemma ExpiredIsNotRoot(d: Direntry, now: int, timeout: int)
    requires IsExpired(d, now, timeout)
    ensures !d.isRoot
  {}

  // ---------- Runs ----------

  // May this listing be made?
  method MayList(cache: DirentryCache, parent: string, ds: seq<Direntry>, now: int, timeout: int, born: map<Direntry, nat>,
                 ghost time: nat) returns (ok: bool)
    requires cache.Valid()
    ensures ok <==> Allowed(Snapshot(cache, born, time), List(parent, ds, now, timeout))
  {
    hide DirentryCache.Valid, Nodes, Subtrees;
    ok := parent in cache.table && !IsExpired(cache.table[parent], now, timeout)
          && cache.table[parent].children == [] && Unused(ds, born) && forall d :: d in ds ==> d.path !in cache.table;
    if parent in cache.table {
      IndexedIsNode(cache, parent);
      ghost var x := HeadedBy(cache.tree, cache.table[parent]);
      ChildrenAre(cache, x);
    }
  }

  method MayRelist(cache: DirentryCache, parent: string, ds: seq<Direntry>, now: int, born: map<Direntry, nat>,
                   ghost time: nat) returns (ok: bool)
    requires cache.Valid()
    ensures ok <==> Allowed(Snapshot(cache, born, time), Relist(parent, ds, now))
  {
    hide DirentryCache.Valid, Nodes, Subtrees;
    if parent !in cache.table {
      return false;
    }
    IndexedIsNode(cache, parent);
    ghost var x := HeadedBy(cache.tree, cache.table[parent]);
    ChildrenAre(cache, x);
    ok := Unused(ds, born)
          && forall d :: d in ds && d.path in cache.table ==> cache.table[d.path] in cache.table[parent].children;
  }

  method MayClimb(cache: DirentryCache, path: string, now: int, timeout: int, missing: set<Direntry>,
                  born: map<Direntry, nat>, ghost time: nat) returns (ok: bool)
    requires cache.Valid() && path in cache.table
    ensures ok <==> FindsWay(Snapshot(cache, born, time), cache.table[path], now, timeout, missing)
  {
    hide DirentryCache.Valid, Nodes, Subtrees, FindsWay, Climbable, Fares, Snapshot;
    IndexedIsNode(cache, path);
    TreeIsShaped(cache);
    ghost var nodes := NodeSet(Subtrees(cache.tree));
    var found, way;
    found, way := CanClimb(cache.root, cache.table[path], now, timeout, missing, cache.tree);
    ok := cache.table[path].isRoot || way == Stops;
    StopsIsClimbable(cache, cache.table[path], way, now, timeout, missing);
    SameClimb(cache, born, time, cache.table[path], now, timeout, missing);
  }

  lemma EndsAtMeans(t: Tree, c: seq<Tree>, d: Direntry, k: nat, now: int, timeout: int, missing: set<Direntry>)
    requires c == Chain(t, d) != []
    ensures EndsAt(c, |c| - 1, k, now, timeout, missing) <==>
              k + 1 < |c| && Nearest(c, |c| - 2, k, now, timeout, missing) && WayUpTo(t, d, k)
  {
    hide IsStale;
  }

  lemma StopsIsClimbable(cache: DirentryCache, d: Direntry, way: Way, now: int, timeout: int, missing: set<Direntry>)
    requires cache.Valid() && d in Nodes(cache.tree) && Fares(cache.tree, d, way, now, timeout, missing)
    ensures Climbable(cache.tree, d, now, timeout, missing) <==> d.isRoot || way == Stops
  {
    hide WayFrom, IsStale, EndsAt, Nearest, WayUpTo;
    var t, c := cache.tree, Chain(cache.tree, d);
    ChainIsChain(t, d);
    ChainInTree(t, c, d);
    var last := |c| - 1;
    WayStops(c, last, now, timeout, missing);
    if !d.isRoot && Climbable(t, d, now, timeout, missing) {
      var k: nat :| k + 1 < |c| && Nearest(c, |c| - 2, k, now, timeout, missing) && WayUpTo(t, d, k);
      EndsAtMeans(t, c, d, k, now, timeout, missing);
    }
    if WayFrom(c, last, now, timeout, missing) == Stops {
      var k: nat :| EndsAt(c, last, k, now, timeout, missing);
      EndsAtMeans(t, c, d, k, now, timeout, missing);
    }
  }

  method MayServe(cache: DirentryCache, c: Call, born: map<Direntry, nat>, ghost time: nat) returns (ok: bool)
    requires cache.Valid()
    ensures ok <==> Allowed(Snapshot(cache, born, time), c)
  {
    hide DirentryCache.Valid, Nodes, Subtrees, FindsWay, Expired, IsExpired, Unused;
    IndexIsNodes(cache);
    match c {
      case List(parent, ds, now, timeout) => ok := MayList(cache, parent, ds, now, timeout, born, time);
      case Relist(parent, ds, now) => ok := MayRelist(cache, parent, ds, now, born, time);
      case Stale(path, now, timeout, missing) =>
        ok := path in cache.table;
        if ok {
          ok := MayClimb(cache, path, now, timeout, missing, born, time);
        }
      case Lookup(path, now, timeout, missing) =>
        ok := true;
        ghost var nodes := NodeSet(Subtrees(cache.tree));
        if path in cache.table && IsExpired(cache.table[path], now, timeout) {
          ok := MayClimb(cache, path, now, timeout, missing, born, time);
        }
        SameExpiry(cache, born, time, now, timeout);
    }
  }

  lemma TreeIsShaped(cache: DirentryCache)
    requires cache.Valid()
    ensures Shaped(cache.tree) && cache.tree.node == cache.root
  {}

  // One call, and all that it does.
  method Serve(cache: DirentryCache, c: Call, ghost born: map<Direntry, nat>, ghost time: nat) returns (answer: Answer)
    requires cache.Valid() && Ordered(Snapshot(cache, born, time))
    requires Allowed(Snapshot(cache, born, time), c) && Parsed(Elems(Given(c)), born)
    modifies cache, NodeSet(Subtrees(cache.tree)), Elems(Given(c))
    ensures cache.Valid()
    ensures Effect(old(Snapshot(cache, born, time)), c,
                   Snapshot(cache, born + (map d | d in Given(c) :: time), time + 1), answer)
    ensures NodeSet(Subtrees(cache.tree)) <= old(NodeSet(Subtrees(cache.tree))) + Elems(Given(c))
  {
    hide DirentryCache.Valid, Nodes, Subtrees, Ordered, Allowed, Effect, Snapshot, Parsed;
    answer := NoAnswer;
    assert born + map[] == born;
    match c {
      case List(parent, ds, now, timeout) =>
        ServeList(cache, parent, ds, now, timeout, born, time);
      case Relist(parent, ds, now) =>
        ServeRelist(cache, parent, ds, now, born, time);
      case Stale(path, now, timeout, missing) =>
        ServeStale(cache, path, now, timeout, missing, born, time);
      case Lookup(path, now, timeout, missing) =>
        var status, de;
        if path in cache.table && IsExpired(cache.table[path], now, timeout) {
          status, de := ServeExpired(cache, path, now, timeout, missing, born, time);
        } else {
          status, de := ServeUnexpired(cache, path, now, timeout, missing, born, time);
        }
        answer := Found(status, de);
    }
  }

  lemma ParsedStays(ds: set<Direntry>, born: map<Direntry, nat>)
    requires Parsed(ds, map[])
    ensures Parsed(ds, born)
  {}

  // A call, made if it may be.  Entries that have not been put into the cache stay as they are.
  method Request(cache: DirentryCache, c: Call, born: map<Direntry, nat>, time: nat, ghost given: set<Direntry>)
      returns (answer: Answer, born': map<Direntry, nat>, time': nat)
    requires cache.Valid() && Ordered(Snapshot(cache, born, time))
    requires Elems(Given(c)) <= given && Parsed(given, born)
    modifies cache, NodeSet(Subtrees(cache.tree)), Elems(Given(c))
    ensures cache.Valid() && Step(old(Snapshot(cache, born, time)), c, Snapshot(cache, born', time'), answer)
    ensures Ordered(Snapshot(cache, born', time'))
    ensures NodeSet(Subtrees(cache.tree)) <= old(NodeSet(Subtrees(cache.tree))) + Elems(Given(c))
    ensures Parsed(given, born')
  {
    hide DirentryCache.Valid, DirentryCache.Linked, Nodes, Subtrees, Ordered, Allowed, Effect, Snapshot, Sound, Given;
    ghost var s, nodes := Snapshot(cache, born, time), NodeSet(Subtrees(cache.tree));
    NodesBorn(cache, born, time);
    NodesOf(cache, born, time);
    answer, born', time' := NoAnswer, born, time;
    var ok := MayServe(cache, c, born, time);
    if ok {
      answer := Serve(cache, c, born, time);
      born' := born + (map d | d in Given(c) :: time);
      time' := time + 1;
    }
    ServedOrdered(cache, s, c, answer, born', time');
  }

  lemma ServedOrdered(cache: DirentryCache, s: State, c: Call, a: Answer, born: map<Direntry, nat>, time: nat)
    requires cache.Valid() && Sound(s) && Ordered(s) && Step(s, c, Snapshot(cache, born, time), a)
    ensures Ordered(Snapshot(cache, born, time)) && Sound(Snapshot(cache, born, time))
  {
    NodesOf(cache, born, time);
    StepOrdered(s, c, Snapshot(cache, born, time), a);
  }

  /** From the root entry on, any sequence of calls, of which those are made that may be.  `entries` are those that
      the listings bring.  In every state a climb from an entry finds its way exactly if the entries on it came in
      order. */
  method Session(calls: seq<Call>, ghost entries: set<Direntry>, start: int)
      returns (cache: DirentryCache, ghost trace: seq<State>, answers: seq<Answer>)
    requires forall i :: 0 <= i < |calls| ==> Elems(Given(calls[i])) <= entries
    requires Parsed(entries, map[])
    modifies entries
    ensures |answers| == |calls| && IsRun(trace, calls, answers) && trace[0] == Initial(cache.root, start)
    ensures cache.Valid() && trace[|calls|] == Snapshot(cache, trace[|calls|].born, trace[|calls|].time)
    ensures forall i, d, now, timeout, missing :: 0 <= i <= |calls| && d in Nodes(trace[i].tree) ==>
              (FindsWay(trace[i], d, now, timeout, missing) <==> ClimbsInOrder(trace[i], d, now, timeout, missing))
  {
    hide DirentryCache.Valid, DirentryCache.Linked, Nodes, Subtrees, Ordered, Step, Snapshot, Sound, Given, FindsWay,
      ClimbsInOrder, IsRun, Parsed;
    cache := new DirentryCache(start);
    var born: map<Direntry, nat>, time: nat := map[cache.root := 0], 1;
    StartsRun(cache, calls, start);
    ParsedStays(entries, born);
    trace, answers := [Initial(cache.root, start)], [];
    var i := 0;
    while i < |calls|
      invariant 0 <= i <= |calls| && |answers| == i && fresh(cache) && fresh(cache.root)
      invariant cache.Valid() && IsRun(trace, calls, answers) && |trace| == i + 1
      invariant trace[0] == Initial(cache.root, start) && trace[i] == Snapshot(cache, born, time)
      invariant forall d :: d in NodeSet(Subtrees(cache.tree)) ==> d == cache.root || d in entries
      invariant Parsed(entries, born) && Ordered(trace[i])
    {
      var answer;
      answer, born, time := Request(cache, calls[i], born, time, entries);
      NodesOf(cache, born, time);
      RunGrows(trace, calls, answers, Snapshot(cache, born, time), answer);
      trace, answers := trace + [Snapshot(cache, born, time)], answers + [answer];
      i := i + 1;
    }
    RunClimbsRightExactly(trace, calls, answers);
    NodesOf(cache, born, time);
  }

  lemma StartsRun(cache: DirentryCache, calls: seq<Call>, now: int)
    requires cache.Valid() && cache.tree == Tree(cache.root, []) && cache.table == map["/" := cache.root]
    requires cache.root.parent == null && cache.root.lastValid == now && !cache.root.lookedForChildren
    requires cache.ops == [Insert("/", cache.root)]
    ensures NodeSet(Subtrees(cache.tree)) == {cache.root}
    ensures Snapshot(cache, map[cache.root := 0], 1) == Initial(cache.root, now)
    ensures Ordered(Initial(cache.root, now)) && IsRun([Initial(cache.root, now)], calls, [])
  {
    assert Subtrees(cache.tree) == {cache.tree};
    assert NodeSet(Subtrees(cache.tree)) == {cache.root};
    NodesOf(cache, map[cache.root := 0], 1);
  }
}
