/** The directory cache of scrap/direntry_cache.c as a value, what each call makes of it, and what follows for
    every run: above all where a climb by the parent links still finds its way. */
module DirentryStates {
  import opened DirentryCaches
  import opened DirentryTrees
  import opened HashTableSpec
  import opened Wrappers

  datatype Call =
    | List(parent: string, dirents: seq<Direntry>, now: int, timeout: int)
    | Relist(parent: string, newChildren: seq<Direntry>, now: int)
    | Stale(path: string, now: int, timeout: int, missing: set<Direntry>)
    | Lookup(path: string, now: int, timeout: int, missing: set<Direntry>)

  datatype Answer = NoAnswer | Found(status: Status, de: Option<Direntry>)

  function Given(c: Call): seq<Direntry> {
    match c
    case List(_, dirents, _, _) => dirents
    case Relist(_, newChildren, _) => newChildren
    case _ => []
  }

  /** Of every node of the tree: its parent link, the time it was last valid and whether its children were looked for.
      Of every entry that has ever been in the cache: with which call it came, counted in `time`.  `ops` is all that
      has been asked of the table. */
  datatype State = State(tree: Tree, table: map<string, Direntry>, under: map<Direntry, Direntry?>,
                         valid: map<Direntry, int>, looked: set<Direntry>, born: map<Direntry, nat>, time: nat,
                         ops: seq<Op<Direntry>>)

  ghost function Initial(root: Direntry, now: int): State {
    State(Tree(root, []), map["/" := root], map[root := null], map[root := now], {}, map[root := 0], 1,
          [Insert("/", root)])
  }

  ghost predicate Expired(s: State, d: Direntry, now: int, timeout: int) {
    !d.isRoot && d in s.valid && s.valid[d] < now - timeout
  }

  // The parent links lead from d back to entry k of its way, by the way of the child links.
  ghost predicate RightTo(s: State, d: Direntry, k: nat) {
    var c := Chain(s.tree, d);
    forall i :: k < i < |c| ==> c[i].node in s.under && s.under[c[i].node] == c[i - 1].node
  }

  // Entry k of the way is the nearest strictly above its end that is not found stale, or the root.
  ghost predicate ClimbEnds(s: State, c: seq<Tree>, k: nat, now: int, timeout: int, missing: set<Direntry>) {
    && k < |c| && (k + 1 < |c| || |c| == 1)
    && (k == 0 || !(Expired(s, c[k].node, now, timeout) || c[k].node in missing))
    && forall j :: k < j < |c| - 1 ==> Expired(s, c[j].node, now, timeout) || c[j].node in missing
  }

  // The climb from d follows right links to where it ends.
  ghost predicate FindsWay(s: State, d: Direntry, now: int, timeout: int, missing: set<Direntry>) {
    exists k: nat :: ClimbEnds(s, Chain(s.tree, d), k, now, timeout, missing) && RightTo(s, d, k)
  }

  // Entries that no listing has brought before, each for a path of its own.
  predicate Unused(ds: seq<Direntry>, born: map<Direntry, nat>) {
    PathsDiffer(ds) && forall d :: d in ds ==> !d.isRoot && d !in born
  }

  /** The calls that keep index and tree in step: a first listing where there was none, of a directory
      that the cache has, a listing of one that is listed, and climbs that find their way. */
  ghost predicate Allowed(s: State, c: Call) {
    match c
    case List(parent, ds, now, timeout) =>
      && parent in s.table && !Expired(s, s.table[parent], now, timeout)
      && (forall x :: x in Subtrees(s.tree) && x.node == s.table[parent] ==> x.kids == [])
      && Unused(ds, s.born) && forall d :: d in ds ==> d.path !in s.table
    case Relist(parent, ds, _) =>
      && parent in s.table && Unused(ds, s.born)
      && forall d, x :: d in ds && d.path in s.table && x in Subtrees(s.tree) && x.node == s.table[parent] ==>
           s.table[d.path] in Heads(x.kids)
    case Stale(path, now, timeout, missing) => path in s.table && FindsWay(s, s.table[path], now, timeout, missing)
    case Lookup(path, now, timeout, missing) =>
      path in s.table && Expired(s, s.table[path], now, timeout) ==> FindsWay(s, s.table[path], now, timeout, missing)
  }

  // ---------- What the calls do ----------

  // Nothing happens to the entries but these.
  ghost predicate Untouched(s: State, s': State, touched: set<Direntry>) {
    && s'.under.Keys == s'.valid.Keys == NodeSet(Subtrees(s'.tree)) && s'.looked <= s'.under.Keys
    && forall n :: n in s'.under && n !in touched ==>
         && n in s.under && s'.under[n] == s.under[n]
         && n in s.valid && s'.valid[n] == s.valid[n]
         && (n in s'.looked <==> n in s.looked)
  }

  // These are in the cache now, under `parent`.
  ghost predicate Entered(s: State, s': State, ds: seq<Direntry>, parent: Direntry, now: int) {
    && s'.born == s.born + (map d | d in ds :: s.time)
    && forall d :: d in ds ==>
         && d in s'.under && s'.under[d] == parent
         && d in s'.valid && s'.valid[d] == now && d !in s'.looked
  }

  ghost predicate Listed(s: State, s': State, parent: Direntry, ds: seq<Direntry>, now: int) {
    && s'.tree == Replace(s.tree, parent, Leaves(ds)) && s'.table == Indexed(s.table, ds)
    && s'.ops == s.ops + AddOps(ds)
    && Untouched(s, s', Elems(ds) + {parent}) && Entered(s, s', ds, parent, now)
    && parent in s.under && parent in s'.under && s'.under[parent] == s.under[parent]
    && parent in s.valid && parent in s'.valid && s'.valid[parent] == s.valid[parent] && parent in s'.looked
  }

  ghost predicate Relisted(s: State, s': State, x: Tree, ds: seq<Direntry>, now: int) {
    && s'.tree == Replace(s.tree, x.node, Regrown(ds, x.kids))
    && s'.table == Indexed(s.table - PathsOf(Dropped(x.kids, ds)), ds)
    && s'.ops == s.ops + DiscardOps(x.kids, ds) + AddOps(ds)
    && Untouched(s, s', Elems(ds)) && Entered(s, s', ds, x.node, now)
  }

  // All below x goes, and x is valid now.
  ghost predicate Fell(s: State, s': State, x: Tree, now: int) {
    && s'.tree == Replace(s.tree, x.node, []) && s'.table == s.table - PathsOf(NodesAll(x.kids)) && s'.born == s.born
    && s'.ops == s.ops + DelOpsAll(x.kids)
    && Untouched(s, s', {x.node})
    && x.node in s.under && x.node in s'.under && s'.under[x.node] == s.under[x.node]
    && x.node in s'.valid && s'.valid[x.node] == now && x.node !in s'.looked
  }

  ghost predicate Climbed(s: State, s': State, d: Direntry, now: int, timeout: int, missing: set<Direntry>) {
    var c := Chain(s.tree, d);
    exists k: nat :: ClimbEnds(s, c, k, now, timeout, missing) && Fell(s, s', c[k], now)
  }

  // What a call does that may be made.
  ghost predicate Effect(s: State, c: Call, s': State, a: Answer) {
    Allowed(s, c) && s'.time == s.time + 1 &&
    match c
    case List(parent, ds, now, _) => a == NoAnswer && Listed(s, s', s.table[parent], ds, now)
    case Relist(parent, ds, now) =>
      a == NoAnswer && exists x :: x in Subtrees(s.tree) && x.node == s.table[parent] && Relisted(s, s', x, ds, now)
    case Stale(path, now, timeout, missing) =>
      a == NoAnswer && Climbed(s, s', s.table[path], now, timeout, missing)
    case Lookup(path, now, timeout, missing) =>
      if path in s.table && Expired(s, s.table[path], now, timeout) then
        a == Found(Unknown, None) && Climbed(s, s', s.table[path], now, timeout, missing)
      else
        s' == s.(time := s.time + 1) && a == LookedUp(s, path)
  }

  ghost function LookedUp(s: State, path: string): Answer {
    if path in s.table then Found(Hit, Some(s.table[path]))
    else
      var dir := Dirname(path);
      Found(if dir in s.table && s.table[dir] in s.looked then NoEnt else Unknown, None)
  }

  // A call that may not be made is not made.
  ghost predicate Step(s: State, c: Call, s': State, a: Answer) {
    if Allowed(s, c) then Effect(s, c, s', a) else s' == s && a == NoAnswer
  }

  // ---------- What every run keeps ----------

  ghost predicate Sound(s: State) {
    && s.tree.node.isRoot && Once(Nodes(s.tree)) && Agrees(Nodes(s.tree), s.table)
    && s.under.Keys == s.valid.Keys == NodeSet(Subtrees(s.tree)) && s.looked <= s.under.Keys
  }

  ghost predicate LinkOk(s: State, x: Direntry, k: Direntry) {
    && k in s.under && x in s.born && k in s.born
    && (s.under[k] == x <==> s.born[x] < s.born[k])
  }

  // A parent link is right exactly when the entry above came before the entry below.
  ghost predicate Ordered(s: State) {
    && (forall n :: n in Nodes(s.tree) ==> n in s.born && s.born[n] < s.time)
    && (forall n :: n in s.under && n != s.tree.node ==> s.under[n] != null && s.under[n] in s.born)
    && (forall x, k :: x in Subtrees(s.tree) && k in x.kids ==> LinkOk(s, x.node, k.node))
  }

  // Where a link of the new tree comes from.
  lemma ReplaceLink(t: Tree, d: Direntry, ks: seq<Tree>, x': Tree, k': Tree) returns (x: Tree, k: Tree)
    requires x' in Subtrees(Replace(t, d, ks)) && k' in x'.kids
    ensures || x' in SubtreesAll(ks)
            || (x'.node == d && k' in ks)
            || (x in Subtrees(t) && k in x.kids && x.node == x'.node && k.node == k'.node)
  {
    x, k := t, t;
    var x0 := ReplaceSubtree(t, d, ks, x');
    if x' !in SubtreesAll(ks) && x0.node != d {
      var j :| 0 <= j < |x'.kids| && x'.kids[j] == k';
      ReplaceAllAt(x0.kids, d, ks, j);
      x, k := x0, x0.kids[j];
    }
  }

  lemma LinkEnds(t: Tree, x: Tree, k: Tree)
    requires x in Subtrees(t) && k in x.kids
    ensures x.node in Nodes(t) && k in Subtrees(t) && k.node in Nodes(t)
    ensures x.node in NodeSet(Subtrees(t)) && k.node in NodeSet(Subtrees(t))
  {
    SubtreeNodes(t, x);
    KidsAreSubtrees(x.kids);
    NodeSetIsNodes(t);
  }

  // A link of an old tree, between nodes that both stay.
  lemma LinkKept(s: State, s': State, x: Tree, k: Tree, ds: seq<Direntry>)
    requires Ordered(s) && x in Subtrees(s.tree) && k in x.kids
    requires s'.born == s.born + (map d | d in ds :: s.time) && forall d :: d in ds ==> d !in s.born
    requires k.node in s.under && k.node in s'.under && s'.under[k.node] == s.under[k.node]
    ensures LinkOk(s', x.node, k.node)
  {
    LinkEnds(s.tree, x, k);
    assert LinkOk(s, x.node, k.node);
  }

  // What is below d is new, or inherited by what is new, or was there before.
  ghost predicate NewBelow(s: State, ks: seq<Tree>, ds: seq<Direntry>) {
    && (forall k :: k in ks ==> k.node in ds)
    && forall x, k :: x in SubtreesAll(ks) && k in x.kids ==>
         || x in Subtrees(s.tree)
         || (x.node in ds && k in Subtrees(s.tree) && k.node != s.tree.node)
  }

  lemma GrownLink(s: State, s': State, d: Direntry, ks: seq<Tree>, ds: seq<Direntry>, now: int, x': Tree, k': Tree)
    requires Sound(s) && Ordered(s) && Sound(s') && d in s.born
    requires s'.tree == Replace(s.tree, d, ks) && NewBelow(s, ks, ds) && Entered(s, s', ds, d, now)
    requires forall e :: e in ds ==> e !in s.born
    requires forall n :: n in s'.under && n !in ds ==> n in s.under && s'.under[n] == s.under[n]
    requires x' in Subtrees(s'.tree) && k' in x'.kids
    ensures LinkOk(s', x'.node, k'.node)
  {
    hide Sound, NewBelow;
    BelowIsNew(s, ks, ds, x', k');
    UnderAreNodes(s);
    UnderAreNodes(s');
    LinkEnds(s'.tree, x', k');
    var x, k := ReplaceLink(s.tree, d, ks, x', k');
    if x' in SubtreesAll(ks) {
      if x' in Subtrees(s.tree) {
        LinkEnds(s.tree, x', k');
        LinkKept(s, s', x', k', ds);
      } else {
        NodeSetIsNodes(s.tree);
        assert k'.node in NodeSet(Subtrees(s.tree));
      }
    } else if !(x'.node == d && k' in ks) {
      LinkEnds(s.tree, x, k);
      LinkKept(s, s', x, k, ds);
    }
  }

  lemma BelowIsNew(s: State, ks: seq<Tree>, ds: seq<Direntry>, x: Tree, k: Tree)
    requires NewBelow(s, ks, ds)
    ensures k in ks ==> k.node in ds
    ensures x in SubtreesAll(ks) && k in x.kids ==>
              || x in Subtrees(s.tree)
              || (x.node in ds && k in Subtrees(s.tree) && k.node != s.tree.node)
  {}

  lemma OrderedBorn(s: State, n: Direntry)
    requires Sound(s) && Ordered(s) && n in s.under
    ensures n in s.born
  {
    UnderAreNodes(s);
  }

  lemma UnderAreNodes(s: State)
    requires Sound(s)
    ensures forall n: Direntry :: n in s.under ==> n in Nodes(s.tree) && n in NodeSet(Subtrees(s.tree))
    ensures forall n: Direntry :: n in Nodes(s.tree) ==> n in s.under
    ensures forall n: Direntry :: n in NodeSet(Subtrees(s.tree)) ==> n in s.under
  {
    NodeSetIsNodes(s.tree);
  }

  lemma GrownNodes(s: State, s': State, d: Direntry, ks: seq<Tree>, ds: seq<Direntry>, now: int)
    requires Sound(s) && Ordered(s) && Sound(s') && d in s.born && s'.time == s.time + 1
    requires s'.tree == Replace(s.tree, d, ks) && Entered(s, s', ds, d, now)
    requires forall n :: n in s'.under && n !in ds ==> n in s.under && s'.under[n] == s.under[n]
    ensures forall n :: n in Nodes(s'.tree) ==> n in s'.born && s'.born[n] < s'.time
    ensures forall n :: n in s'.under && n != s'.tree.node ==> s'.under[n] != null && s'.under[n] in s'.born
  {
    hide Sound, Nodes, Subtrees, LinkOk;
    UnderAreNodes(s);
    UnderAreNodes(s');
    assert s'.tree.node == s.tree.node;
    forall n | n in Nodes(s'.tree)
      ensures n in s'.born && s'.born[n] < s'.time
    {
      if n !in ds {
        assert n in s.under && n in Nodes(s.tree);
      }
    }
  }

  lemma GrownOrdered(s: State, s': State, d: Direntry, ks: seq<Tree>, ds: seq<Direntry>, now: int)
    requires Sound(s) && Ordered(s) && Sound(s') && d in s.born && s'.time == s.time + 1
    requires s'.tree == Replace(s.tree, d, ks) && NewBelow(s, ks, ds) && Entered(s, s', ds, d, now)
    requires forall e :: e in ds ==> e !in s.born
    requires forall n :: n in s'.under && n !in ds ==> n in s.under && s'.under[n] == s.under[n]
    ensures Ordered(s')
  {
    hide Sound, NewBelow, LinkOk, Entered, Nodes, Subtrees, Replace;
    GrownNodes(s, s', d, ks, ds, now);
    forall x, k | x in Subtrees(s'.tree) && k in x.kids
      ensures LinkOk(s', x.node, k.node)
    {
      GrownLink(s, s', d, ks, ds, now, x, k);
    }
  }

  lemma LeavesBelow(s: State, ds: seq<Direntry>)
    ensures NewBelow(s, Leaves(ds), ds)
  {
    LeavesSubtrees(ds);
  }

  lemma RegrownBelow(s: State, x: Tree, ds: seq<Direntry>)
    requires Sound(s) && x in Subtrees(s.tree)
    ensures NewBelow(s, Regrown(ds, x.kids), ds)
  {
    hide Once, Agrees, KidsFor, Regrown;
    var ks := Regrown(ds, x.kids);
    forall y, k | y in SubtreesAll(ks) && k in y.kids
      ensures y in Subtrees(s.tree) || (y.node in ds && k in Subtrees(s.tree) && k.node != s.tree.node)
    {
      var i := RegrownSubtree(ds, x.kids, y);
      BelowOld(s.tree, x, ds[i].path);
      if y == ks[i] {
        KidsAreSubtrees(KidsFor(ds[i].path, x.kids));
        InheritedIsBelow(s.tree, x, ds[i].path, k);
      }
    }
  }

  lemma InheritedIsBelow(t: Tree, x: Tree, path: string, k: Tree)
    requires x in Subtrees(t) && Once(Nodes(t)) && k in KidsFor(path, x.kids)
    ensures k.node != t.node
  {
    KidsForSubtrees(path, x.kids);
    var o :| o in x.kids && KidsFor(path, x.kids) == o.kids;
    KidsAreSubtrees(x.kids);
    SubtreeNodes(t, x);
    KidIsNotTop(t, o, k);
  }

  lemma KidIsNotTop(t: Tree, x: Tree, k: Tree)
    requires x in Subtrees(t) && Once(Nodes(t)) && k in x.kids
    ensures k.node != t.node
  {
    KidsAreSubtrees(x.kids);
    if x != t {
      SubtreeNodesAll(t.kids, x);
    }
    SubtreeNodesAll(t.kids, k);
    OnceParts(multiset{t.node}, NodesAll(t.kids));
    assert k.node in Nodes(k) && t.node in multiset{t.node};
  }

  /** Whatever the calls are, a parent link is right exactly when the entry above came before the entry below. */
  lemma StepOrdered(s: State, c: Call, s': State, a: Answer)
    requires Sound(s) && Ordered(s) && Sound(s') && Step(s, c, s', a)
    ensures Ordered(s')
  {
    hide Sound, FindsWay, Climbed, Listed, Relisted, Ordered, Expired;
    if Allowed(s, c) {
      match c {
        case List(parent, ds, now, _) => ListOrdered(s, s', s.table[parent], ds, now);
        case Relist(parent, ds, now) =>
          var x :| x in Subtrees(s.tree) && x.node == s.table[parent] && Relisted(s, s', x, ds, now);
          RelistOrdered(s, s', x, ds, now);
        case Stale(path, now, timeout, missing) => ClimbOrdered(s, s', s.table[path], now, timeout, missing);
        case Lookup(path, now, timeout, missing) =>
          if path in s.table && Expired(s, s.table[path], now, timeout) {
            ClimbOrdered(s, s', s.table[path], now, timeout, missing);
          } else {
            LaterOrdered(s);
          }
      }
    }
  }

  lemma LaterOrdered(s: State)
    requires Ordered(s)
    ensures Ordered(s.(time := s.time + 1))
  {
    forall x, k | x in Subtrees(s.tree) && k in x.kids
      ensures LinkOk(s.(time := s.time + 1), x.node, k.node)
    {
      assert LinkOk(s, x.node, k.node);
    }
  }

  lemma ListOrdered(s: State, s': State, parent: Direntry, ds: seq<Direntry>, now: int)
    requires Sound(s) && Ordered(s) && Sound(s') && s'.time == s.time + 1
    requires Unused(ds, s.born) && Listed(s, s', parent, ds, now)
    ensures Ordered(s')
  {
    hide Sound, LinkOk, NewBelow, Ordered, Nodes, Replace;
    OrderedBorn(s, parent);
    LeavesBelow(s, ds);
    GrownOrdered(s, s', parent, Leaves(ds), ds, now);
  }

  lemma RelistOrdered(s: State, s': State, x: Tree, ds: seq<Direntry>, now: int)
    requires Sound(s) && Ordered(s) && Sound(s') && s'.time == s.time + 1
    requires Unused(ds, s.born) && x in Subtrees(s.tree) && Relisted(s, s', x, ds, now)
    ensures Ordered(s')
  {
    hide Sound, LinkOk, NewBelow, Ordered, Nodes, Replace;
    NodeSetIsNodes(s.tree);
    assert x.node in NodeSet(Subtrees(s.tree));
    UnderAreNodes(s);
    OrderedBorn(s, x.node);
    RegrownBelow(s, x, ds);
    GrownOrdered(s, s', x.node, Regrown(ds, x.kids), ds, now);
  }

  lemma ClimbOrdered(s: State, s': State, d: Direntry, now: int, timeout: int, missing: set<Direntry>)
    requires Sound(s) && Ordered(s) && Sound(s') && s'.time == s.time + 1
    requires Climbed(s, s', d, now, timeout, missing)
    ensures Ordered(s')
  {
    hide Sound, Expired, Ordered, Fell;
    var c := Chain(s.tree, d);
    var k: nat :| ClimbEnds(s, c, k, now, timeout, missing) && Fell(s, s', c[k], now);
    FellOrdered(s, s', c[k], now);
  }

  lemma FellOrdered(s: State, s': State, x: Tree, now: int)
    requires Sound(s) && Ordered(s) && Sound(s') && s'.time == s.time + 1 && Fell(s, s', x, now)
    ensures Ordered(s')
  {
    hide Sound, LinkOk, NewBelow, Ordered, Nodes, Subtrees, Replace, DelOpsAll, NodesAll, PathsOf;
    OrderedBorn(s, x.node);
    LeavesBelow(s, []);
    assert s'.born == s.born + map[];
    GrownOrdered(s, s', x.node, [], [], now);
  }

  // The entries from entry k of the way to d came into the cache in that order.
  ghost predicate CameInOrder(s: State, d: Direntry, k: nat) {
    var c := Chain(s.tree, d);
    && (forall t :: t in c ==> t.node in s.born)
    && forall i :: k < i < |c| ==> s.born[c[i - 1].node] < s.born[c[i].node]
  }

  // The links from an entry up to entry k of its way are right exactly where the entries from there down came in order.
  lemma RightExactly(s: State, d: Direntry, k: nat)
    requires Sound(s) && Ordered(s) && d in Nodes(s.tree)
    ensures IsChain(Chain(s.tree, d), s.tree, d)
    ensures RightTo(s, d, k) <==> CameInOrder(s, d, k)
  {
    var c := Chain(s.tree, d);
    ChainIsChain(s.tree, d);
    ChainInTree(s.tree, c, d);
    forall i | 0 < i < |c|
      ensures LinkOk(s, c[i - 1].node, c[i].node)
    {
      assert c[i - 1] in Subtrees(s.tree) && c[i] in c[i - 1].kids;
    }
  }

  // From where the climb from d ends down to d the entries came in order.
  ghost predicate ClimbsInOrder(s: State, d: Direntry, now: int, timeout: int, missing: set<Direntry>) {
    exists k: nat :: ClimbEnds(s, Chain(s.tree, d), k, now, timeout, missing) && CameInOrder(s, d, k)
  }

  // Climbs end: at one entry, which is the root or not found stale.
  lemma ClimbEndsOnce(s: State, d: Direntry, now: int, timeout: int, missing: set<Direntry>) returns (k: nat)
    requires d in Nodes(s.tree)
    ensures ClimbEnds(s, Chain(s.tree, d), k, now, timeout, missing)
    ensures forall j: nat :: ClimbEnds(s, Chain(s.tree, d), j, now, timeout, missing) ==> j == k
  {
    var c := Chain(s.tree, d);
    ChainIsChain(s.tree, d);
    k := if |c| == 1 then 0 else |c| - 2;
    while k > 0 && (Expired(s, c[k].node, now, timeout) || c[k].node in missing)
      invariant k < |c| && (k + 1 < |c| || |c| == 1)
      invariant forall j :: k < j < |c| - 1 ==> Expired(s, c[j].node, now, timeout) || c[j].node in missing
    {
      k := k - 1;
    }
  }

  /** Where a climb from an entry finds its way, in every run: exactly where the entries from the one at which it ends
      down came into the cache in that order, so that none of them has been replaced since the one below it came. */
  lemma ClimbRightExactly(s: State, d: Direntry, now: int, timeout: int, missing: set<Direntry>)
    requires Sound(s) && Ordered(s) && d in Nodes(s.tree)
    ensures FindsWay(s, d, now, timeout, missing) <==> ClimbsInOrder(s, d, now, timeout, missing)
  {
    hide Sound, Ordered, RightTo, CameInOrder;
    var k := ClimbEndsOnce(s, d, now, timeout, missing);
    RightExactly(s, d, k);
  }

  /** The states that the first calls lead through, with their answers.  From each to the next there is the effect of
      one call, and index and tree agree in each. */
  ghost predicate IsRun(trace: seq<State>, calls: seq<Call>, answers: seq<Answer>) {
    && |trace| == |answers| + 1 && |answers| <= |calls|
    && (forall i :: 0 <= i < |answers| ==> Step(trace[i], calls[i], trace[i + 1], answers[i]))
    && (forall i :: 0 <= i < |trace| ==> Sound(trace[i]) && Ordered(trace[i]))
  }

  lemma RunGrows(trace: seq<State>, calls: seq<Call>, answers: seq<Answer>, s: State, a: Answer)
    requires IsRun(trace, calls, answers) && |answers| < |calls|
    requires Step(trace[|answers|], calls[|answers|], s, a) && Sound(s)
    ensures IsRun(trace + [s], calls, answers + [a])
  {
    hide Step, Sound, Ordered;
    StepOrdered(trace[|answers|], calls[|answers|], s, a);
  }

  // In every state of a run a climb finds its way exactly where the entries on it came in order.
  lemma RunClimbsRightExactly(trace: seq<State>, calls: seq<Call>, answers: seq<Answer>)
    requires IsRun(trace, calls, answers)
    ensures forall i, d, now, timeout, missing :: 0 <= i < |trace| && d in Nodes(trace[i].tree) ==>
              (FindsWay(trace[i], d, now, timeout, missing) <==> ClimbsInOrder(trace[i], d, now, timeout, missing))
  {
    forall i, d, now, timeout, missing | 0 <= i < |trace| && d in Nodes(trace[i].tree)
      ensures FindsWay(trace[i], d, now, timeout, missing) <==> ClimbsInOrder(trace[i], d, now, timeout, missing)
    {
      ClimbRightExactly(trace[i], d, now, timeout, missing);
    }
  }
}
