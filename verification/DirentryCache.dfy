/** scrap/direntry_cache.c: an index by path and a tree of the same entries.  The index is a map here, which module
    DirentryIndexes puts in the table of scrap/hash_table.c; calls run one at a time, and each sees one reading of the
    clock. */
module DirentryCaches {
  import opened DirentryTrees
  import opened HashTableSpec
  import opened Sequences
  import opened Wrappers

  // ---------- The index and the tree agree ----------

  ghost function PathsOf(ns: multiset<Direntry>): set<string> {
    set n | n in ns :: n.path
  }

  // Every node is found under its path, and there is nothing else in the index.
  ghost predicate Agrees(ns: multiset<Direntry>, table: map<string, Direntry>) {
    && (forall n :: n in ns ==> n.path in table && table[n.path] == n)
    && (forall p :: p in table ==> table[p] in ns && table[p].path == p)
  }

  lemma AgreesKeys(ns: multiset<Direntry>, table: map<string, Direntry>)
    requires Agrees(ns, table)
    ensures table.Keys == PathsOf(ns)
    ensures forall m, n :: m in ns && n in ns && m.path == n.path ==> m == n
  {
    assert forall p :: p in table ==> table[p].path in PathsOf(ns);
  }

  lemma AgreesWithout(ns: multiset<Direntry>, rest: multiset<Direntry>, gone: multiset<Direntry>,
                      table: map<string, Direntry>)
    requires Agrees(ns, table) && Once(ns) && rest + gone == ns
    ensures Agrees(rest, table - PathsOf(gone)) && Once(rest)
  {
    OnceParts(rest, gone);
    assert forall n :: n in ns <==> n in rest || n in gone;
    forall m, n | m in gone && n in rest ensures m.path != n.path {
      assert table[m.path] == m && table[n.path] == n;
    }
  }

  lemma AgreesWith(ns: multiset<Direntry>, n: Direntry, table: map<string, Direntry>)
    requires Agrees(ns, table) && Once(ns) && n.path !in table
    ensures Agrees(ns + multiset{n}, table[n.path := n]) && Once(ns + multiset{n})
  {
    assert n !in ns;
    assert forall m :: m in ns + multiset{n} <==> m in ns || m == n;
  }

  // ---------- The heap and the tree agree ----------

  ghost function NodeSet(ss: set<Tree>): set<Direntry> {
    set s | s in ss :: s.node
  }

  ghost predicate Shaped(t: Tree)
    reads NodeSet(Subtrees(t))`children
  {
    forall s :: s in Subtrees(t) ==> s.node.children == Heads(s.kids)
  }

  ghost predicate Parented(t: Tree)
    reads NodeSet(Subtrees(t))`parent
  {
    forall s, k :: s in Subtrees(t) && k in Subtrees(t) && k in s.kids ==> k.node.parent == s.node
  }

  ghost predicate ShapedBut(t: Tree, d: Direntry)
    reads (NodeSet(Subtrees(t)) - {d})`children
  {
    forall s :: s in Subtrees(t) && s.node != d ==> s.node.children == Heads(s.kids)
  }

  lemma ShapedIsBut(t: Tree, d: Direntry)
    requires Shaped(t)
    ensures ShapedBut(t, d)
  {}

  // After d is given other children and no other node is touched.
  lemma ShapedReplaced(t: Tree, d: Direntry, ks: seq<Tree>)
    requires ShapedBut(t, d)
    requires d.children == Heads(ks) && (forall s :: s in SubtreesAll(ks) ==> s.node.children == Heads(s.kids))
    ensures Shaped(Replace(t, d, ks))
  {
    forall s' | s' in Subtrees(Replace(t, d, ks)) ensures s'.node.children == Heads(s'.kids) {
      var s := ReplaceSubtree(t, d, ks, s');
      if s' !in SubtreesAll(ks) {
        ReplaceHeads(s.kids, d, ks);
      }
    }
  }

  lemma NodeSetIsNodes(t: Tree)
    ensures forall n :: n in Nodes(t) <==> n in NodeSet(Subtrees(t))
  {
    forall n | n in Nodes(t) ensures n in NodeSet(Subtrees(t)) {
      var s := SubtreeAt(t, n);
    }
    forall s | s in Subtrees(t) ensures s.node in Nodes(t) {
      SubtreeNodes(t, s);
      assert s.node in Nodes(s);
    }
  }

  ghost predicate ParentedBelow(ks: seq<Tree>)
    reads NodeSet(SubtreesAll(ks))`parent
  {
    forall s, k :: s in SubtreesAll(ks) && k in SubtreesAll(ks) && k in s.kids ==> k.node.parent == s.node
  }

  lemma {:induction false} KidsAreSubtrees(ts: seq<Tree>)
    ensures forall k :: k in ts ==> k in SubtreesAll(ts)
    decreases |ts|
  {
    if ts != [] {
      KidsAreSubtrees(ts[1..]);
    }
  }

  lemma {:induction false} ReplaceAllAt(ts: seq<Tree>, d: Direntry, ks: seq<Tree>, i: nat)
    requires i < |ts|
    ensures ReplaceAll(ts, d, ks)[i] == Replace(ts[i], d, ks)
    decreases |ts|
  {
    if i > 0 {
      ReplaceAllAt(ts[1..], d, ks, i - 1);
    }
  }

  lemma ParentedReplaced(t: Tree, d: Direntry, ks: seq<Tree>)
    requires Parented(t) && ParentedBelow(ks)
    requires forall k :: k in ks ==> k.node.parent == d
    ensures Parented(Replace(t, d, ks))
  {
    var t' := Replace(t, d, ks);
    forall s', k' | s' in Subtrees(t') && k' in Subtrees(t') && k' in s'.kids ensures k'.node.parent == s'.node {
      var s := ReplaceSubtree(t, d, ks, s');
      if s' in SubtreesAll(ks) {
        KidsAreSubtrees(s'.kids);
        SubtreeNodesAll(ks, s');
      } else if s.node != d {
        var i :| 0 <= i < |s'.kids| && s'.kids[i] == k';
        ReplaceAllAt(s.kids, d, ks, i);
        KidsAreSubtrees(s.kids);
        SubtreeNodes(t, s);
        assert s.kids[i] in s.kids;
      }
    }
  }

  // ---------- From the root to a node ----------

  ghost function Chain(t: Tree, d: Direntry): seq<Tree>
    decreases t, 0
  {
    if t.node == d then [t]
    else var below := ChainAll(t.kids, d); if below == [] then [] else [t] + below
  }

  ghost function ChainAll(ts: seq<Tree>, d: Direntry): seq<Tree>
    decreases ts, 1
  {
    if ts == [] then []
    else var first := Chain(ts[0], d); if first != [] then first else ChainAll(ts[1..], d)
  }

  ghost predicate IsChain(c: seq<Tree>, top: Tree, d: Direntry) {
    && c != [] && c[0] == top && c[|c| - 1].node == d
    && (forall i :: 0 < i < |c| ==> c[i] in c[i - 1].kids && c[i] in SubtreesAll(top.kids))
  }

  lemma {:induction false} ChainIsChain(t: Tree, d: Direntry)
    requires d in Nodes(t)
    ensures IsChain(Chain(t, d), t, d)
    decreases t, 0
  {
    if t.node != d {
      var k := ChainAllIsChain(t.kids, d);
      var below := ChainAll(t.kids, d);
      KidNodes(t.kids, k);
      var c := Chain(t, d);
      assert c == [t] + below;
      forall i | 0 < i < |c| ensures c[i] in c[i - 1].kids && c[i] in SubtreesAll(t.kids) {
        assert c[i] == below[i - 1];
        if i > 1 {
          assert c[i - 1] == below[i - 2];
        }
      }
    }
  }

  lemma {:induction false} ChainAllIsChain(ts: seq<Tree>, d: Direntry) returns (k: nat)
    requires d in NodesAll(ts)
    ensures k < |ts| && IsChain(ChainAll(ts, d), ts[k], d)
    decreases ts, 1
  {
    if d in Nodes(ts[0]) {
      ChainIsChain(ts[0], d);
      k := 0;
    } else {
      ChainAbsent(ts[0], d);
      k := ChainAllIsChain(ts[1..], d);
      k := k + 1;
    }
  }

  lemma {:induction false} ChainAbsent(t: Tree, d: Direntry)
    requires d !in Nodes(t)
    ensures Chain(t, d) == []
    decreases t, 0
  {
    ChainAllAbsent(t.kids, d);
  }

  lemma {:induction false} ChainAllAbsent(ts: seq<Tree>, d: Direntry)
    requires d !in NodesAll(ts)
    ensures ChainAll(ts, d) == []
    decreases ts, 1
  {
    if ts != [] {
      ChainAbsent(ts[0], d);
      ChainAllAbsent(ts[1..], d);
    }
  }

  lemma WithoutMore(table: map<string, Direntry>, a: multiset<Direntry>, b: multiset<Direntry>)
    ensures table - PathsOf(a) - PathsOf(b) == table - PathsOf(a + b)
  {
    assert forall p :: p in PathsOf(a + b) <==> p in PathsOf(a) || p in PathsOf(b);
  }

  // The parent links lead from d back to entry k of its way, by the way of the child links.
  ghost predicate WayUpTo(t: Tree, d: Direntry, k: nat)
    reads (set x | x in Chain(t, d) :: x.node)`parent
  {
    var c := Chain(t, d);
    forall i :: k < i < |c| ==> c[i].node.parent == c[i - 1].node
  }

  lemma ChainInTree(t: Tree, c: seq<Tree>, d: Direntry)
    requires IsChain(c, t, d) && Once(Nodes(t))
    ensures forall i :: 0 <= i < |c| ==> c[i] in Subtrees(t) && c[i].node in NodeSet(Subtrees(t)) && c[i].node in Nodes(t)
    ensures forall i :: 0 < i < |c| ==> c[i].node != t.node
  {
    OnceParts(multiset{t.node}, NodesAll(t.kids));
    assert t.node in multiset{t.node};
    forall i | 0 < i < |c| ensures c[i].node in NodesAll(t.kids) {
      SubtreeNodesAll(t.kids, c[i]);
      assert c[i].node in Nodes(c[i]);
    }
  }

  // What a climb from d meets.
  lemma ClimbFacts(t: Tree, c: seq<Tree>, d: Direntry)
    requires d in Nodes(t) && c == Chain(t, d) && Once(Nodes(t))
    ensures IsChain(c, t, d)
    ensures forall i :: 0 <= i < |c| ==> c[i] in Subtrees(t) && c[i].node in NodeSet(Subtrees(t)) && c[i].node in Nodes(t)
    ensures forall i :: 0 < i < |c| ==> c[i].node != t.node
  {
    ChainIsChain(t, d);
    ChainInTree(t, c, d);
  }

  // Has the entry outlived its time in the cache?
  predicate IsExpired(d: Direntry, now: int, timeout: int)
    reads d`lastValid
  {
    !d.isRoot && d.lastValid < now - timeout
  }

  // `missing` are the entries whose listing can not be fetched.
  predicate IsStale(d: Direntry, now: int, timeout: int, missing: set<Direntry>)
    reads d`lastValid
  {
    IsExpired(d, now, timeout) || d in missing
  }

  // Entry k is the nearest, from `from` up, not found stale; the root if there is none.
  ghost predicate Nearest(c: seq<Tree>, from: nat, k: nat, now: int, timeout: int, missing: set<Direntry>)
    requires from < |c|
    reads NodeSet(set t | t in c)`lastValid
  {
    && k <= from
    && (k == 0 || !IsStale(c[k].node, now, timeout, missing))
    && forall j :: k < j <= from ==> IsStale(c[j].node, now, timeout, missing)
  }

  /** A climb from d meets only right links: from d up to the nearest strict ancestor not found stale, or the root.
      Further up no link is looked at. */
  ghost predicate Climbable(t: Tree, d: Direntry, now: int, timeout: int, missing: set<Direntry>)
    reads NodeSet(set x | x in Chain(t, d))`parent, NodeSet(set x | x in Chain(t, d))`lastValid
  {
    var c := Chain(t, d);
    d.isRoot || exists k: nat :: k + 1 < |c| && Nearest(c, |c| - 2, k, now, timeout, missing) && WayUpTo(t, d, k)
  }

  class DirentryCache {
    var table: map<string, Direntry>
    const root: Direntry
    ghost var tree: Tree
    // What has been asked of the table, in order.
    ghost var ops: seq<Op<Direntry>>

    // The tree is what the child links make, from the root.
    ghost predicate Linked()
      reads this, NodeSet(Subtrees(tree))
    {
      && tree.node == root && root.isRoot
      && Once(Nodes(tree)) && Shaped(tree)
      && forall n :: n in Nodes(tree) && n.isRoot ==> n == root
    }

    ghost predicate Valid()
      reads this, NodeSet(Subtrees(tree))
    {
      Linked() && Agrees(Nodes(tree), table)
    }

    constructor (now: int)
      ensures Valid() && fresh(root) && tree == Tree(root, []) && Parented(tree)
      ensures table == map["/" := root] && root.path == "/" && ops == [Insert("/", root)]
      ensures root.parent == null && root.lastValid == now && !root.lookedForChildren
    {
      var r := new Direntry("/", true);
      r.lastValid := now;
      root := r;
      table, ops := map["/" := r], [Insert("/", r)];
      tree := Tree(r, []);
    }

    // hash_table_add and hash_table_del
    method IndexAdd(d: Direntry)
      modifies this`table, this`ops
      ensures table == old(table)[d.path := d] && ops == old(ops) + [Insert(d.path, d)]
    {
      table, ops := table[d.path := d], ops + [Insert(d.path, d)];
    }

    method IndexDel(path: string)
      modifies this`table, this`ops
      ensures table == old(table) - {path} && ops == old(ops) + [Remove(path)]
    {
      table, ops := table - {path}, ops + [Remove(path)];
    }

    // ---------- Deleting subtrees ----------

    method DelTree(d: Direntry, ghost t: Tree)
      requires t.node == d && Shaped(t)
      modifies this`table, this`ops
      ensures table == old(table) - PathsOf(Nodes(t)) && ops == old(ops) + DelOps(t)
      decreases t
    {
      hide Shaped, PathsOf, Nodes, Subtrees, DelOps, DelOpsAll;
      ghost var was := table;
      ghost var nodes := NodeSet(Subtrees(t));
      ShapedAt(t);
      var i := 0;
      WithoutNone(was, t.kids);
      NoDelOps(t);
      while i < |d.children|
        invariant 0 <= i <= |t.kids|
        invariant table == was - PathsOf(NodesAll(t.kids[..i])) && ops == old(ops) + DelOpsAll(t.kids[..i])
      {
        ShapedKid(t, i);
        DelTree(d.children[i], t.kids[i]);
        WithoutKid(was, t.kids, i);
        DelOpsSnoc(t.kids, i);
        i := i + 1;
      }
      assert t.kids[..i] == t.kids;
      IndexDel(d.path);
      WithoutTop(was, t);
    }

    method DelDescendants(d: Direntry, ghost t: Tree)
      requires t.node == d && Shaped(t)
      modifies this`table, this`ops, d`lookedForChildren
      ensures table == old(table) - PathsOf(NodesAll(t.kids)) && ops == old(ops) + DelOpsAll(t.kids)
      ensures !d.lookedForChildren
    {
      hide Shaped, PathsOf, Nodes, Subtrees, DelOps, DelOpsAll;
      ghost var was := table;
      ghost var nodes := NodeSet(Subtrees(t));
      ShapedAt(t);
      var i := 0;
      WithoutNone(was, t.kids);
      NoDelOps(t);
      while i < |d.children|
        invariant 0 <= i <= |t.kids|
        invariant table == was - PathsOf(NodesAll(t.kids[..i])) && ops == old(ops) + DelOpsAll(t.kids[..i])
        modifies this`table, this`ops
      {
        ShapedKid(t, i);
        DelTree(d.children[i], t.kids[i]);
        WithoutKid(was, t.kids, i);
        DelOpsSnoc(t.kids, i);
        i := i + 1;
      }
      assert t.kids[..i] == t.kids;
      d.lookedForChildren := false;
    }

    method Climb(de: Direntry, now: int, timeout: int, missing: set<Direntry>)
        returns (p: Direntry, ghost k: nat)
      requires Valid() && de in Nodes(tree) && Climbable(tree, de, now, timeout, missing)
      ensures var c := Chain(tree, de);
              && IsChain(c, tree, de) && k < |c| && p == c[k].node && c[k] in Subtrees(tree)
              && (forall i :: 0 <= i < |c| ==> c[i].node in NodeSet(Subtrees(tree)))
              && (var from := if de.isRoot then 0 else |c| - 2;
                  from >= 0 && k <= from && Nearest(c, from, k, now, timeout, missing))
              && forall i :: k < i < |c| - 1 ==> c[i].node.lastValid < now - timeout || c[i].node in missing
      ensures p.isRoot || (now <= p.lastValid + timeout && p !in missing)
    {
      hide Nodes, Subtrees, Shaped, Once, Agrees, Chain;
      ghost var c := Chain(tree, de);
      ClimbFacts(tree, c, de);
      ghost var end: nat := 0;
      if de.isRoot {
        p := de;
        k := 0;
      } else {
        end :| end + 1 < |c| && Nearest(c, |c| - 2, end, now, timeout, missing) && WayUpTo(tree, de, end);
        assert c[0].node.isRoot && c[|c| - 1].node.parent == c[|c| - 2].node;
        p := de.parent;
        k := |c| - 2;
      }
      ghost var from := k;
      while !p.isRoot && IsStale(p, now, timeout, missing)
        invariant end <= k <= from && p == c[k].node
        invariant forall j :: k < j <= from ==> IsStale(c[j].node, now, timeout, missing)
        decreases k
      {
        assert c[0].node.isRoot && k > end && c[k].node.parent == c[k - 1].node;
        p := p.parent;
        k := k - 1;
      }
      assert k == 0 || !c[k].node.isRoot;
    }

    // The end of direntry_cache_notify_stale: p is trusted, and what is below it is not.
    method DropBelow(p: Direntry, ghost s: Tree, now: int)
      requires Valid() && s in Subtrees(tree) && s.node == p
      modifies this`table, this`ops, this`tree, p`children, p`lookedForChildren, p`lastValid
      ensures Valid() && (old(Parented(tree)) ==> Parented(tree))
      ensures table == old(table) - PathsOf(NodesAll(s.kids)) && ops == old(ops) + DelOpsAll(s.kids)
      ensures tree == Replace(old(tree), p, []) && Nodes(tree) + NodesAll(s.kids) == Nodes(old(tree))
      ensures p.children == [] && !p.lookedForChildren && p.lastValid == now
    {
      hide Nodes, Subtrees, Once, Agrees, PathsOf, Replace, Shaped, ShapedBut, Parented;
      ghost var t, nodes := tree, NodeSet(Subtrees(tree));
      ShapedWithin(t, s);
      ShapedIsBut(t, p);
      RemovedBelow(t, s, table);
      p.lastValid := now;
      DelDescendants(p, s);
      p.children := [];
      ShapedReplaced(t, p, []);
      if old(Parented(tree)) {
        ParentedReplaced(t, p, []);
      }
      tree := Replace(t, p, []);
    }

    /** Climbs from de to the nearest ancestor not found stale, or the root, and removes everything below it.
        Entry k of the way from the root to de is where the climb ends. */
    method NotifyStale(de: Direntry, now: int, timeout: int, missing: set<Direntry>) returns (ghost k: nat)
      requires Valid() && de in Nodes(tree) && Climbable(tree, de, now, timeout, missing)
      modifies this`table, this`ops, this`tree
      modifies NodeSet(Subtrees(tree))`children, NodeSet(Subtrees(tree))`lookedForChildren, NodeSet(Subtrees(tree))`lastValid
      ensures Valid() && (old(Parented(tree)) ==> Parented(tree))
      ensures var c := Chain(old(tree), de);
              && IsChain(c, old(tree), de)
              && (var from := if de.isRoot then 0 else |c| - 2;
                  from >= 0 && k <= from && old(Nearest(c, from, k, now, timeout, missing)))
              && table == old(table) - PathsOf(NodesAll(c[k].kids)) && ops == old(ops) + DelOpsAll(c[k].kids)
              && tree == Replace(old(tree), c[k].node, [])
              && Nodes(tree) + NodesAll(c[k].kids) == Nodes(old(tree))
              && c[k].node.children == [] && !c[k].node.lookedForChildren && c[k].node.lastValid == now
              && forall n :: n in NodeSet(Subtrees(old(tree))) && n != c[k].node ==>
                   && n.children == old(n.children) && n.lookedForChildren == old(n.lookedForChildren)
                   && n.lastValid == old(n.lastValid)
    {
      hide Nodes, Subtrees, Shaped, Parented, Once, Agrees, PathsOf, Replace, IsChain, Chain, Climbable;
      ghost var nodes, c := NodeSet(Subtrees(tree)), Chain(tree, de);
      var p;
      p, k := Climb(de, now, timeout, missing);
      DropBelow(p, c[k], now);
    }

    /** A lookup.  An expired entry is not returned: the climb from it ends at entry k of its way, and all below
        that is removed, the entry itself included.  Otherwise nothing changes. */
    method Get(path: string, now: int, timeout: int, missing: set<Direntry>)
        returns (status: Status, de: Option<Direntry>, ghost k: nat)
      requires Valid()
      requires path in table && IsExpired(table[path], now, timeout) ==> Climbable(tree, table[path], now, timeout, missing)
      modifies this`table, this`ops, this`tree
      modifies NodeSet(Subtrees(tree))`children, NodeSet(Subtrees(tree))`lookedForChildren, NodeSet(Subtrees(tree))`lastValid
      ensures Valid() && (old(Parented(tree)) ==> Parented(tree))
      ensures path in old(table) && old(IsExpired(table[path], now, timeout)) ==>
                status == Unknown && de == None && path !in table
                && var c := Chain(old(tree), old(table)[path]);
                   && IsChain(c, old(tree), old(table)[path]) && k < |c| - 1
                   && old(Nearest(c, |c| - 2, k, now, timeout, missing))
                   && table == old(table) - PathsOf(NodesAll(c[k].kids)) && ops == old(ops) + DelOpsAll(c[k].kids)
                   && tree == Replace(old(tree), c[k].node, [])
                   && Nodes(tree) + NodesAll(c[k].kids) == Nodes(old(tree))
                   && c[k].node.children == [] && !c[k].node.lookedForChildren && c[k].node.lastValid == now
                   && forall n :: n in NodeSet(Subtrees(old(tree))) && n != c[k].node ==>
                        && n.children == old(n.children) && n.lookedForChildren == old(n.lookedForChildren)
                        && n.lastValid == old(n.lastValid)
      ensures path !in old(table) || !old(IsExpired(table[path], now, timeout)) ==>
                table == old(table) && ops == old(ops) && tree == old(tree)
                && forall n :: n in NodeSet(Subtrees(tree)) ==>
                     n.children == old(n.children) && n.lookedForChildren == old(n.lookedForChildren)
                     && n.lastValid == old(n.lastValid)
      ensures path in old(table) && !old(IsExpired(table[path], now, timeout)) ==>
                status == Hit && de == Some(old(table)[path])
      ensures path !in old(table) ==>
                de == None && status == var dir := Dirname(path);
                if dir in table && table[dir].lookedForChildren then NoEnt else Unknown
      ensures path !in old(table) ==>
                forall i :: 0 <= i < |path| && path[i] == '/' && '/' !in path[i + 1..] ==>
                  var dir := if i == 0 then "/" else path[..i];
                  status == NoEnt <==> dir in table && table[dir].lookedForChildren
      ensures status == Hit <==>
                path in old(table) && (old(table)[path].isRoot || now <= old(table[path].lastValid) + timeout)
    {
      hide Nodes, Subtrees, Shaped, Parented, Once, PathsOf, Replace, IsChain, Chain, Nearest, Climbable;
      status, de, k := Unknown, None, 0;
      if path in table {
        ghost var nodes, c := NodeSet(Subtrees(tree)), Chain(tree, table[path]);
        de := Some(table[path]);
        if IsExpired(de.value, now, timeout) {
          k := NotifyStale(de.value, now, timeout, missing);
          BelowIsGone(old(tree), c, de.value, k);
          de := None;
        }
        if de.Some? {
          status := Hit;
        }
      } else {
        var dir := Dirname(path);
        DirnameAt(path);
        if dir in table && table[dir].lookedForChildren {
          status := NoEnt;
        }
      }
    }

    // ---------- Adding entries ----------

    // The loops that end in direntry_cache_add.
    method AddAll(dirents: seq<Direntry>, parent: Direntry, now: int)
      modifies this`table, this`ops, Elems(dirents)`parent, Elems(dirents)`lastValid
      ensures table == Indexed(old(table), dirents) && ops == old(ops) + AddOps(dirents)
      ensures forall d :: d in dirents ==> d.parent == parent && d.lastValid == now
    {
      var i := 0;
      while i < |dirents|
        invariant 0 <= i <= |dirents|
        invariant table == Indexed(old(table), dirents[..i]) && ops == old(ops) + AddOps(dirents[..i])
        invariant forall j :: 0 <= j < i ==> dirents[j].parent == parent && dirents[j].lastValid == now
      {
        dirents[i].parent := parent;
        dirents[i].lastValid := now;
        IndexAdd(dirents[i]);
        assert dirents[..i + 1][..i] == dirents[..i];
        i := i + 1;
      }
      assert dirents[..i] == dirents;
    }

    // What direntry_cache_add_list does to the entries themselves.
    method Attach(parent: Direntry, dirents: seq<Direntry>, now: int, ghost t: Tree)
      requires Shaped(t) && parent in NodeSet(Subtrees(t)) && AreNew(dirents, NodeSet(Subtrees(t)))
      modifies this`table, this`ops, parent`children, parent`lookedForChildren
      modifies Elems(dirents)`parent, Elems(dirents)`lastValid
      ensures Shaped(Replace(t, parent, Leaves(dirents)))
      ensures old(Parented(t)) ==> Parented(Replace(t, parent, Leaves(dirents)))
      ensures table == Indexed(old(table), dirents) && ops == old(ops) + AddOps(dirents)
      ensures parent.children == dirents && parent.lookedForChildren
      ensures forall d :: d in dirents ==> d.parent == parent && d.lastValid == now
    {
      hide Subtrees, Replace, Shaped, ShapedBut, Parented, Indexed, Leaves;
      ghost var nodes := NodeSet(Subtrees(t));
      ShapedIsBut(t, parent);
      AddAll(dirents, parent, now);
      parent.lookedForChildren := true;
      parent.children := dirents;
      LeavesShaped(t, parent, dirents);
      if old(Parented(t)) {
        LeavesParented(t, parent, dirents);
      }
    }

    /** The entries become the children of `parent`, which the cache has.  The children it had before stay in the
        index, so that index and tree agree afterwards exactly when it had none. */
    method AddList(dirents: seq<Direntry>, parent: Direntry, now: int)
      requires Valid() && parent in NodeSet(Subtrees(tree))
      requires AreNew(dirents, NodeSet(Subtrees(tree))) && forall d :: d in dirents ==> d.path !in table
      modifies this`table, this`ops, this`tree, parent`children, parent`lookedForChildren
      modifies Elems(dirents)`parent, Elems(dirents)`lastValid
      ensures Linked() && tree == Replace(old(tree), parent, Leaves(dirents))
      ensures Valid() <==> old(parent.children) == []
      ensures old(Parented(tree)) ==> Parented(tree)
      ensures table == Indexed(old(table), dirents) && ops == old(ops) + AddOps(dirents)
      ensures parent.children == dirents && parent.lookedForChildren
      ensures forall d :: d in dirents ==> d.parent == parent && d.lastValid == now
    {
      hide Nodes, Subtrees, Once, Agrees, Replace, Shaped, Parented, Indexed, Leaves, PathsDiffer;
      ghost var t, nodes := tree, NodeSet(Subtrees(tree));
      ghost var s := HeadedBy(t, parent);
      ShapedWithin(t, s);
      ShapedAt(s);
      AddedUnder(t, s, dirents, table);
      Attach(parent, dirents, now, t);
      tree := Replace(t, parent, Leaves(dirents));
    }

    // The inner loop that hands an old child's subtree to its successor.
    method Inherit(child: Direntry, oldChildren: seq<Direntry>, ghost t: Tree, ghost s: Tree)
      requires s in Subtrees(t) && ShapedBut(t, s.node) && Once(Nodes(t)) && oldChildren == Heads(s.kids)
      requires child !in NodeSet(Subtrees(t)) && child.children == []
      modifies child`children
      ensures child.children == Heads(KidsFor(child.path, s.kids))
    {
      hide ShapedBut, Once, Nodes, Subtrees, NodeSet, Shaped;
      ghost var nodes := NodeSet(Subtrees(t));
      var j := 0;
      assert s.kids[..0] == [];
      while j < |oldChildren|
        invariant 0 <= j <= |oldChildren| && ShapedBut(t, s.node)
        invariant child.children == Heads(KidsFor(child.path, s.kids[..j]))
      {
        assert s.kids[..j + 1][..j] == s.kids[..j];
        if child.path == oldChildren[j].path {
          OldKidShaped(t, s, j);
          child.children := oldChildren[j].children;
        }
        j := j + 1;
      }
      assert s.kids[..j] == s.kids;
    }

    // Ownership of the old children's subtrees passes to the new children.
    method TakeOver(newChildren: seq<Direntry>, oldChildren: seq<Direntry>, ghost t: Tree, ghost s: Tree)
      requires s in Subtrees(t) && ShapedBut(t, s.node) && Once(Nodes(t)) && oldChildren == Heads(s.kids)
      requires AreNew(newChildren, NodeSet(Subtrees(t)))
      modifies Elems(newChildren)`children
      ensures ShapedBut(t, s.node)
      ensures forall i :: 0 <= i < |newChildren| ==> newChildren[i].children == Heads(KidsFor(newChildren[i].path, s.kids))
    {
      hide ShapedBut, Once, Nodes, Subtrees, KidsFor, Heads;
      ghost var nodes := NodeSet(Subtrees(t));
      var i := 0;
      while i < |newChildren|
        invariant 0 <= i <= |newChildren| && ShapedBut(t, s.node)
        invariant forall k :: 0 <= k < i ==> newChildren[k].children == Heads(KidsFor(newChildren[k].path, s.kids))
        invariant forall k :: i <= k < |newChildren| ==> newChildren[k].children == []
      {
        Inherit(newChildren[i], oldChildren, t, s);
        i := i + 1;
      }
    }

    method DiscardOne(child: Direntry, newChildren: seq<Direntry>, ghost t: Tree, ghost s: Tree, ghost i: nat)
      requires s in Subtrees(t) && ShapedBut(t, s.node) && Once(Nodes(t)) && i < |s.kids| && s.kids[i].node == child
      modifies this`table, this`ops, child`lookedForChildren
      ensures table == old(table)
                       - (if Kept(child.path, newChildren) then {} else PathsOf(NodesAll(s.kids[i].kids))) - {child.path}
      ensures ops == old(ops) + DiscardOneOps(s.kids[i], newChildren)
    {
      hide ShapedBut, Once, Nodes, Subtrees, PathsOf, Shaped, Kept;
      OldKidShaped(t, s, i);
      ghost var below := NodeSet(Subtrees(s.kids[i]));
      var found := HasPath(newChildren, child.path);
      if !found {
        DelDescendants(child, s.kids[i]);
      }
      IndexDel(child.path);
    }

    // The old children leave the index, and what was below those that nothing succeeds.
    method Discard(oldChildren: seq<Direntry>, newChildren: seq<Direntry>, ghost t: Tree, ghost s: Tree)
      requires s in Subtrees(t) && ShapedBut(t, s.node) && Once(Nodes(t)) && oldChildren == Heads(s.kids)
      modifies this`table, this`ops, Elems(oldChildren)`lookedForChildren
      ensures table == old(table) - PathsOf(Dropped(s.kids, newChildren)) && ops == old(ops) + DiscardOps(s.kids, newChildren)
    {
      hide ShapedBut, Once, Nodes, Subtrees, PathsOf, Shaped, Kept, Dropped, DiscardOps, DiscardOneOps;
      ghost var nodes, was := NodeSet(Subtrees(t)), table;
      var i := 0;
      NothingDiscarded(newChildren);
      assert s.kids[..0] == [];
      WithoutNothing(was, s.kids, newChildren);
      while i < |oldChildren|
        invariant 0 <= i <= |oldChildren| && ShapedBut(t, s.node)
        invariant table == was - PathsOf(Dropped(s.kids[..i], newChildren))
        invariant ops == old(ops) + DiscardOps(s.kids[..i], newChildren)
      {
        WithoutOld(was, s.kids, newChildren, i);
        DiscardOpsSnoc(s.kids, newChildren, i);
        DiscardOne(oldChildren[i], newChildren, t, s, i);
        i := i + 1;
      }
      assert s.kids[..i] == s.kids;
    }

    // The three passes of direntry_cache_add_children over the lists.
    method Replant(parent: Direntry, newChildren: seq<Direntry>, now: int, ghost t: Tree, ghost s: Tree)
      requires s in Subtrees(t) && s.node == parent && Shaped(t) && Once(Nodes(t))
      requires AreNew(newChildren, NodeSet(Subtrees(t)))
      modifies this`table, this`ops, parent`children, Elems(parent.children)`lookedForChildren
      modifies Elems(newChildren)`children, Elems(newChildren)`parent, Elems(newChildren)`lastValid
      ensures Shaped(Replace(t, parent, Regrown(newChildren, s.kids)))
      ensures table == Indexed(old(table) - PathsOf(Dropped(s.kids, newChildren)), newChildren)
      ensures ops == old(ops) + DiscardOps(s.kids, newChildren) + AddOps(newChildren)
      ensures parent.children == newChildren
      ensures forall d :: d in newChildren ==> d.parent == parent && d.lastValid == now
    {
      hide Nodes, Subtrees, Once, Replace, Shaped, ShapedBut, Indexed, Dropped, PathsOf, KidsFor, Regrown;
      ghost var nodes := NodeSet(Subtrees(t));
      ShapedIsBut(t, parent);
      ShapedWithin(t, s);
      ShapedAt(s);
      var oldChildren := parent.children;
      parent.children := newChildren;
      TakeOver(newChildren, oldChildren, t, s);
      Discard(oldChildren, newChildren, t, s);
      AddAll(newChildren, parent, now);
      RegrownShaped(t, s, newChildren);
    }

    /** A fresh listing of `parent` replaces its children.  A new child takes over all below the old child of its
        path.  The nodes below are not told of their new parent: parent links stay right exactly when no
        successor inherits anything. */
    method AddChildren(parent: Direntry, newChildren: seq<Direntry>, now: int) returns (ghost s: Tree)
      requires Valid() && parent in NodeSet(Subtrees(tree))
      requires AreNew(newChildren, NodeSet(Subtrees(tree)))
      requires forall d :: d in newChildren && d.path in table ==> table[d.path] in parent.children
      modifies this`table, this`ops, this`tree, parent`children, Elems(parent.children)`lookedForChildren
      modifies Elems(newChildren)`children, Elems(newChildren)`parent, Elems(newChildren)`lastValid
      ensures s in Subtrees(old(tree)) && s.node == parent
      ensures Valid() && tree == Replace(old(tree), parent, Regrown(newChildren, s.kids))
      ensures table == Indexed(old(table) - PathsOf(Dropped(s.kids, newChildren)), newChildren)
      ensures ops == old(ops) + DiscardOps(s.kids, newChildren) + AddOps(newChildren)
      ensures Nodes(tree) + Dropped(s.kids, newChildren) == Nodes(old(tree)) + multiset(newChildren)
      ensures parent.children == newChildren
      ensures forall d :: d in newChildren ==> d.parent == parent && d.lastValid == now
      ensures old(Parented(tree)) ==> (Parented(tree) <==> NothingInherited(newChildren, s.kids))
    {
      hide Nodes, Subtrees, Once, Agrees, Replace, Shaped, Parented, Indexed, Dropped, PathsOf, KidsFor, Regrown,
        NothingInherited, DiscardOps, AddOps, Kept;
      ghost var t, nodes, was := tree, NodeSet(Subtrees(tree)), table;
      s := HeadedBy(t, parent);
      ShapedWithin(t, s);
      ShapedAt(s);
      RegrownUnder(t, s, newChildren, was);
      Replant(parent, newChildren, now, t, s);
      if old(Parented(tree)) {
        RegrownParented(t, s, newChildren);
      }
      tree := Replace(t, parent, Regrown(newChildren, s.kids));
    }
  }

  // ---------- What is asked of the table ----------

  // What is below goes first.
  ghost function DelOps(t: Tree): seq<Op<Direntry>>
    decreases t, 0
  {
    DelOpsAll(t.kids) + [Remove(t.node.path)]
  }

  ghost function DelOpsAll(ts: seq<Tree>): seq<Op<Direntry>>
    decreases ts, 1
  {
    if ts == [] then [] else DelOpsAll(ts[..|ts| - 1]) + DelOps(ts[|ts| - 1])
  }

  ghost function AddOps(ds: seq<Direntry>): seq<Op<Direntry>>
    decreases |ds|
  {
    if ds == [] then []
    else
      var last := ds[|ds| - 1];
      AddOps(ds[..|ds| - 1]) + [Insert(last.path, last)]
  }

  // An old child goes after what is below it, unless that passes to a successor.
  ghost function DiscardOneOps(o: Tree, ds: seq<Direntry>): seq<Op<Direntry>> {
    (if Kept(o.node.path, ds) then [] else DelOpsAll(o.kids)) + [Remove(o.node.path)]
  }

  ghost function DiscardOps(olds: seq<Tree>, ds: seq<Direntry>): seq<Op<Direntry>>
    decreases |olds|
  {
    if olds == [] then [] else DiscardOps(olds[..|olds| - 1], ds) + DiscardOneOps(olds[|olds| - 1], ds)
  }

  lemma NoDelOps(t: Tree)
    ensures DelOpsAll(t.kids[..0]) == [] && DelOps(t) == DelOpsAll(t.kids) + [Remove(t.node.path)]
  {}

  lemma DelOpsSnoc(ts: seq<Tree>, i: nat)
    requires i < |ts|
    ensures DelOpsAll(ts[..i + 1]) == DelOpsAll(ts[..i]) + DelOps(ts[i])
  {
    assert ts[..i + 1][..i] == ts[..i];
  }

  lemma NothingDiscarded(ds: seq<Direntry>)
    ensures DiscardOps([], ds) == []
  {}

  lemma DiscardOpsSnoc(olds: seq<Tree>, ds: seq<Direntry>, i: nat)
    requires i < |olds|
    ensures DiscardOps(olds[..i + 1], ds) == DiscardOps(olds[..i], ds) + DiscardOneOps(olds[i], ds)
  {
    assert olds[..i + 1][..i] == olds[..i];
  }

  ghost predicate NothingInherited(ds: seq<Direntry>, olds: seq<Tree>) {
    forall d :: d in ds ==> KidsFor(d.path, olds) == []
  }

  lemma BelowOld(t: Tree, s: Tree, path: string)
    requires s in Subtrees(t) && Once(Nodes(t))
    ensures forall x :: x in SubtreesAll(KidsFor(path, s.kids)) ==> x in Subtrees(t) && x.node != s.node
  {
    KidsForSubtrees(path, s.kids);
    if KidsFor(path, s.kids) != [] {
      var i :| 0 <= i < |s.kids| && KidsFor(path, s.kids) == s.kids[i].kids;
      NotBelowItself(t, s, i);
    }
  }

  lemma NotBelowItself(t: Tree, s: Tree, i: nat)
    requires s in Subtrees(t) && Once(Nodes(t)) && i < |s.kids|
    ensures forall x :: x in Subtrees(s.kids[i]) ==> x in Subtrees(t) && x.node != s.node
  {
    SubtreeNodes(t, s);
    KidNodes(s.kids, i);
    NodeSetIsNodes(s.kids[i]);
    assert multiset{s.node} + NodesAll(s.kids) <= Nodes(t);
    forall x | x in Subtrees(s.kids[i]) ensures x in Subtrees(t) && x.node != s.node {
      assert x.node in NodeSet(Subtrees(s.kids[i]));
      assert x.node in NodesAll(s.kids);
      assert Nodes(s)[s.node] <= Nodes(t)[s.node];
    }
  }

  lemma RegrownShaped(t: Tree, s: Tree, ds: seq<Direntry>)
    requires s in Subtrees(t) && Once(Nodes(t)) && ShapedBut(t, s.node) && s.node.children == ds
    requires forall i :: 0 <= i < |ds| ==> ds[i].children == Heads(KidsFor(ds[i].path, s.kids))
    ensures Shaped(Replace(t, s.node, Regrown(ds, s.kids)))
  {
    hide KidsFor, Once;
    var ks := Regrown(ds, s.kids);
    assert Heads(ks) == ds;
    forall x | x in SubtreesAll(ks) ensures x.node.children == Heads(x.kids) {
      var i := RegrownSubtree(ds, s.kids, x);
      BelowOld(t, s, ds[i].path);
    }
    ShapedReplaced(t, s.node, ks);
  }

  lemma KidsOldPathsDiffer(t: Tree, s: Tree, table: map<string, Direntry>)
    requires s in Subtrees(t) && Once(Nodes(t)) && Agrees(Nodes(t), table)
    ensures OldPathsDiffer(s.kids)
    ensures forall k :: k in s.kids ==> k.node in Nodes(t)
  {
    SubtreeNodes(t, s);
    forall i, j | 0 <= i < j < |s.kids| ensures s.kids[i].node.path != s.kids[j].node.path {
      TwoKids(s.kids, i, j);
    }
    forall k | k in s.kids ensures k.node in Nodes(t) {
      var i :| 0 <= i < |s.kids| && s.kids[i] == k;
      KidNodes(s.kids, i);
      assert k.node in Nodes(k);
    }
  }

  lemma {:induction false} TwoKids(ts: seq<Tree>, i: nat, j: nat)
    requires i < j < |ts|
    ensures ts[i].node in NodesAll(ts) && ts[j].node in NodesAll(ts)
    ensures ts[i].node == ts[j].node ==> NodesAll(ts)[ts[i].node] >= 2
    decreases i
  {
    if i == 0 {
      KidNodes(ts[1..], j - 1);
      assert ts[0].node in Nodes(ts[0]) && ts[j].node in Nodes(ts[j]);
    } else {
      TwoKids(ts[1..], i - 1, j - 1);
    }
  }

  method HasPath(ds: seq<Direntry>, path: string) returns (found: bool)
    ensures found <==> Kept(path, ds)
  {
    found := false;
    var i := 0;
    while i < |ds|
      invariant 0 <= i <= |ds| && !found
      invariant forall j :: 0 <= j < i ==> ds[j].path != path
    {
      if ds[i].path == path {
        found := true;
        break;
      }
      i := i + 1;
    }
  }

  lemma WithoutNothing(table: map<string, Direntry>, olds: seq<Tree>, ds: seq<Direntry>)
    ensures table - PathsOf(multiset{}) == table - PathsOf(Dropped(olds[..0], ds)) == table
  {}

  lemma WithoutOld(was: map<string, Direntry>, olds: seq<Tree>, ds: seq<Direntry>, i: nat)
    requires i < |olds|
    ensures was - PathsOf(Dropped(olds[..i + 1], ds))
         == was - PathsOf(Dropped(olds[..i], ds))
            - (if Kept(olds[i].node.path, ds) then {} else PathsOf(NodesAll(olds[i].kids))) - {olds[i].node.path}
  {
    hide PathsOf, Kept;
    assert olds[..i + 1][..i] == olds[..i];
    var before, top := Dropped(olds[..i], ds), multiset{olds[i].node};
    var below := if Kept(olds[i].node.path, ds) then multiset{} else NodesAll(olds[i].kids);
    WithoutNothing(was - PathsOf(before), olds, ds);
    WithoutMore(was, before, below);
    WithoutMore(was, before + below, top);
    PathOfOne(olds[i].node);
    assert before + below + top == before + (top + below);
  }

  lemma PathOfOne(d: Direntry)
    ensures PathsOf(multiset{d}) == {d.path}
  {}

  // An old child and all below it, seen through the one node of the tree that may have changed.
  lemma OldKidShaped(t: Tree, s: Tree, i: nat)
    requires s in Subtrees(t) && ShapedBut(t, s.node) && Once(Nodes(t)) && i < |s.kids|
    ensures Shaped(s.kids[i]) && s.kids[i].node.children == Heads(s.kids[i].kids)
    ensures s.kids[i].node in NodeSet(Subtrees(t))
  {
    NotBelowItself(t, s, i);
    assert s.kids[i] in Subtrees(s.kids[i]);
  }

  /** The accounts of a replacement: what was dropped went out of both the tree and the index, what is new came in. */
  lemma RegrownUnder(t: Tree, s: Tree, ds: seq<Direntry>, table: map<string, Direntry>)
    requires s in Subtrees(t) && Once(Nodes(t)) && Agrees(Nodes(t), table) && PathsDiffer(ds)
    requires forall d :: d in ds && d.path in table ==> table[d.path] in Heads(s.kids)
    ensures var t' := Replace(t, s.node, Regrown(ds, s.kids));
            && t'.node == t.node && Once(Nodes(t'))
            && (forall n :: n in Nodes(t') ==> n in Nodes(t) || n in ds)
            && Nodes(t') + Dropped(s.kids, ds) == Nodes(t) + multiset(ds)
            && Agrees(Nodes(t'), Indexed(table - PathsOf(Dropped(s.kids, ds)), ds))
  {
    hide Agrees, Once, Indexed, Nodes, NodesAll, Subtrees, Dropped, Carried, PathsOf, KidsFor, Regrown;
    var t' := Replace(t, s.node, Regrown(ds, s.kids));
    var dropped := Dropped(s.kids, ds);
    KidsOldPathsDiffer(t, s, table);
    RegrownNodes(ds, s.kids);
    ReplaceNodes(t, s, Regrown(ds, s.kids));
    DroppedOrCarried(s.kids, ds);
    SubtreeHolds(t, s);
    var rest := Nodes(t) - dropped;
    assert rest + dropped == Nodes(t) && Nodes(t') == rest + multiset(ds) by {
      Accounts(Nodes(t), Nodes(t'), dropped, Carried(s.kids, ds), multiset(ds));
    }
    AgreesWithout(Nodes(t), rest, dropped, table);
    OldPathsLeave(s.kids, ds, table, Nodes(t));
    IndexedAgrees(rest, table - PathsOf(dropped), ds);
  }

  lemma Accounts(t: multiset<Direntry>, t': multiset<Direntry>, dropped: multiset<Direntry>,
                 carried: multiset<Direntry>, came: multiset<Direntry>)
    requires dropped + carried <= t && t' + (dropped + carried) == t + (came + carried)
    ensures (t - dropped) + dropped == t && t' == (t - dropped) + came
  {
    assert (t' + dropped) + carried == t' + (dropped + carried);
    assert (t + came) + carried == t + (came + carried);
    Cancel(t' + dropped, t + came, carried);
    assert t' == (t' + dropped) - dropped;
    assert (t + came) - dropped == (t - dropped) + came;
  }

  lemma SubtreeHolds(t: Tree, s: Tree)
    requires s in Subtrees(t)
    ensures NodesAll(s.kids) <= Nodes(t)
  {
    SubtreeNodes(t, s);
  }

  // A new child's path is not in the index once the old children are out.
  lemma OldPathsLeave(olds: seq<Tree>, ds: seq<Direntry>, table: map<string, Direntry>, ns: multiset<Direntry>)
    requires Agrees(ns, table)
    requires forall d :: d in ds && d.path in table ==> table[d.path] in Heads(olds)
    ensures forall d :: d in ds ==> d.path !in table - PathsOf(Dropped(olds, ds))
  {
    DroppedHeads(olds, ds);
  }

  lemma {:induction false} DroppedHeads(olds: seq<Tree>, ds: seq<Direntry>)
    ensures forall i :: 0 <= i < |olds| ==> olds[i].node in Dropped(olds, ds)
    decreases |olds|
  {
    if olds != [] {
      DroppedHeads(olds[..|olds| - 1], ds);
    }
  }

  lemma {:induction false} ReplaceHas(t: Tree, s: Tree, ks: seq<Tree>)
    requires s in Subtrees(t)
    ensures Tree(s.node, ks) in Subtrees(Replace(t, s.node, ks))
    decreases t, 0
  {
    if t.node != s.node {
      ReplaceHasAll(t.kids, s, ks);
    }
  }

  lemma {:induction false} ReplaceHasAll(ts: seq<Tree>, s: Tree, ks: seq<Tree>)
    requires s in SubtreesAll(ts)
    ensures Tree(s.node, ks) in SubtreesAll(ReplaceAll(ts, s.node, ks))
    decreases ts, 1
  {
    var r := ReplaceAll(ts, s.node, ks);
    assert r[0] == Replace(ts[0], s.node, ks) && r[1..] == ReplaceAll(ts[1..], s.node, ks);
    if s in Subtrees(ts[0]) {
      ReplaceHas(ts[0], s, ks);
    } else {
      ReplaceHasAll(ts[1..], s, ks);
    }
  }

  // What new child i inherits still has the old child for a parent.
  lemma InheritedKid(t: Tree, s: Tree, ds: seq<Direntry>, i: nat)
    requires s in Subtrees(t) && Parented(t) && i < |ds| && KidsFor(ds[i].path, s.kids) != []
    requires ds[i] !in NodeSet(Subtrees(t))
    ensures !Parented(Replace(t, s.node, Regrown(ds, s.kids)))
  {
    var ks, t' := Regrown(ds, s.kids), Replace(t, s.node, Regrown(ds, s.kids));
    var k := KidsFor(ds[i].path, s.kids)[0];
    InheritedLink(t, s, ds, i, k);
    KidsAreSubtrees(ks[i].kids);
    ReplaceHas(t, s, ks);
    SubtreeNodes(t', Tree(s.node, ks));
    KidsAreSubtrees(ks);
    SubtreeNodes(t', ks[i]);
    assert ks[i] in Subtrees(t') && k in ks[i].kids && k in Subtrees(t');
  }

  // After a replacement a parent link is right exactly when it is not that of something inherited.
  lemma LinkAfter(t: Tree, s: Tree, ds: seq<Direntry>, x: Tree, k: Tree)
    requires s in Subtrees(t) && Once(Nodes(t)) && Parented(t)
    requires forall d :: d in ds ==> d.parent == s.node && d !in NodeSet(Subtrees(t))
    requires x in Subtrees(Replace(t, s.node, Regrown(ds, s.kids))) && k in x.kids
    ensures k.node.parent == x.node <==> x.node !in ds
  {
    hide Once, KidsFor, Regrown;
    var ks := Regrown(ds, s.kids);
    var x0 := ReplaceSubtree(t, s.node, ks, x);
    if x in SubtreesAll(ks) {
      var i := RegrownSubtree(ds, s.kids, x);
      BelowOld(t, s, ds[i].path);
      if x == ks[i] {
        InheritedLink(t, s, ds, i, k);
      } else {
        OldLink(t, x, k);
      }
    } else if x0.node != s.node {
      var j :| 0 <= j < |x.kids| && x.kids[j] == k;
      ReplaceAllAt(x0.kids, s.node, ks, j);
      assert x0.kids[j] in x0.kids;
      OldLink(t, x0, x0.kids[j]);
    } else {
      var j :| 0 <= j < |ks| && ks[j] == k;
    }
  }

  lemma OldLink(t: Tree, x: Tree, k: Tree)
    requires x in Subtrees(t) && Parented(t) && k in x.kids
    ensures k.node.parent == x.node && x.node in NodeSet(Subtrees(t))
  {
    SubtreeNodes(t, x);
    KidsAreSubtrees(x.kids);
  }

  lemma InheritedLink(t: Tree, s: Tree, ds: seq<Direntry>, i: nat, k: Tree)
    requires s in Subtrees(t) && Parented(t) && i < |ds| && k in KidsFor(ds[i].path, s.kids)
    requires ds[i] !in NodeSet(Subtrees(t))
    ensures k.node.parent != ds[i]
  {
    KidsForSubtrees(ds[i].path, s.kids);
    var o :| o in s.kids && KidsFor(ds[i].path, s.kids) == o.kids;
    SubtreeNodes(t, s);
    KidsAreSubtrees(s.kids);
    OldLink(t, o, k);
  }

  /** After a replacement the parent links from a node retrace its way up to entry k exactly when no entry from k on is a
      new child, but for the node itself. */
  lemma WayUpAfter(t: Tree, s: Tree, ds: seq<Direntry>, d: Direntry, k: nat)
    requires s in Subtrees(t) && Once(Nodes(t)) && Parented(t)
    requires forall e :: e in ds ==> e.parent == s.node && e !in NodeSet(Subtrees(t))
    requires var t' := Replace(t, s.node, Regrown(ds, s.kids)); Once(Nodes(t')) && d in Nodes(t')
    ensures var t' := Replace(t, s.node, Regrown(ds, s.kids));
            WayUpTo(t', d, k) <==> forall i :: k <= i < |Chain(t', d)| - 1 ==> Chain(t', d)[i].node !in ds
  {
    hide Once, KidsFor, Regrown, Parented, Replace, Chain;
    var t' := Replace(t, s.node, Regrown(ds, s.kids));
    var c := Chain(t', d);
    ChainIsChain(t', d);
    ChainInTree(t', c, d);
    forall i | 0 < i < |c|
      ensures c[i].node.parent == c[i - 1].node <==> c[i - 1].node !in ds
    {
      LinkAfter(t, s, ds, c[i - 1], c[i]);
    }
    if WayUpTo(t', d, k) {
      forall i | k <= i < |c| - 1
        ensures c[i].node !in ds
      {
        assert c[i + 1].node.parent == c[i].node;
      }
    }
  }

  lemma RegrownParented(t: Tree, s: Tree, ds: seq<Direntry>)
    requires s in Subtrees(t) && Once(Nodes(t)) && Parented(t)
    requires forall d :: d in ds ==> d.parent == s.node && d !in NodeSet(Subtrees(t))
    ensures Parented(Replace(t, s.node, Regrown(ds, s.kids))) <==> NothingInherited(ds, s.kids)
  {
    hide KidsFor, Once, Regrown;
    var ks := Regrown(ds, s.kids);
    if NothingInherited(ds, s.kids) {
      forall x | x in SubtreesAll(ks) ensures x.kids == [] {
        var i := RegrownSubtree(ds, s.kids, x);
      }
      ParentedReplaced(t, s.node, ks);
    } else {
      var i :| 0 <= i < |ds| && KidsFor(ds[i].path, s.kids) != [];
      InheritedKid(t, s, ds, i);
    }
  }

  ghost function Elems(dirents: seq<Direntry>): set<Direntry> {
    set d | d in dirents
  }

  // The index with the entries added in turn.
  ghost function Indexed(table: map<string, Direntry>, dirents: seq<Direntry>): map<string, Direntry>
    decreases |dirents|
  {
    if dirents == [] then table
    else
      var last := dirents[|dirents| - 1];
      Indexed(table, dirents[..|dirents| - 1])[last.path := last]
  }

  // Entries as the parser hands them over: none of the cache's, no two of a path, no children yet.
  ghost predicate AreNew(dirents: seq<Direntry>, nodes: set<Direntry>)
    reads dirents`children
  {
    && PathsDiffer(dirents)
    && (forall d :: d in dirents ==> d !in nodes && !d.isRoot && d.children == [])
  }

  ghost function Leaves(dirents: seq<Direntry>): (ts: seq<Tree>)
    ensures |ts| == |dirents| && forall i :: 0 <= i < |ts| ==> ts[i] == Tree(dirents[i], [])
    decreases |dirents|
  {
    if dirents == [] then [] else [Tree(dirents[0], [])] + Leaves(dirents[1..])
  }

  lemma {:induction false} LeavesNodes(dirents: seq<Direntry>)
    ensures NodesAll(Leaves(dirents)) == multiset(dirents)
    decreases |dirents|
  {
    if dirents != [] {
      LeavesNodes(dirents[1..]);
      assert dirents == [dirents[0]] + dirents[1..];
      assert Nodes(Tree(dirents[0], [])) == multiset{dirents[0]};
    }
  }

  lemma {:induction false} LeavesSubtrees(dirents: seq<Direntry>)
    ensures forall s :: s in SubtreesAll(Leaves(dirents)) ==> s.node in dirents && s.kids == []
    decreases |dirents|
  {
    if dirents != [] {
      LeavesSubtrees(dirents[1..]);
      assert Subtrees(Tree(dirents[0], [])) == {Tree(dirents[0], [])};
    }
  }

  lemma LeavesHeads(dirents: seq<Direntry>)
    ensures Heads(Leaves(dirents)) == dirents
  {}

  lemma LeavesShaped(t: Tree, d: Direntry, dirents: seq<Direntry>)
    requires ShapedBut(t, d) && d.children == dirents && forall e :: e in dirents ==> e.children == []
    ensures Shaped(Replace(t, d, Leaves(dirents)))
  {
    LeavesHeads(dirents);
    LeavesSubtrees(dirents);
    ShapedReplaced(t, d, Leaves(dirents));
  }

  lemma LeavesParented(t: Tree, d: Direntry, dirents: seq<Direntry>)
    requires Parented(t) && forall e :: e in dirents ==> e.parent == d
    ensures Parented(Replace(t, d, Leaves(dirents)))
  {
    LeavesSubtrees(dirents);
    KidsAreSubtrees(Leaves(dirents));
    ParentedReplaced(t, d, Leaves(dirents));
  }

  lemma HeadedBy(t: Tree, d: Direntry) returns (s: Tree)
    requires d in NodeSet(Subtrees(t))
    ensures s in Subtrees(t) && s.node == d
  {
    s :| s in Subtrees(t) && s.node == d;
  }

  lemma {:induction false} IndexedKeys(table: map<string, Direntry>, dirents: seq<Direntry>)
    ensures Indexed(table, dirents).Keys == table.Keys + PathsOf(multiset(dirents))
    decreases |dirents|
  {
    if dirents != [] {
      var some, last := dirents[..|dirents| - 1], dirents[|dirents| - 1];
      IndexedKeys(table, some);
      assert dirents == some + [last];
    }
  }

  // Entries of new paths come into the index one by one.
  lemma {:induction false} IndexedAgrees(ns: multiset<Direntry>, table: map<string, Direntry>, dirents: seq<Direntry>)
    requires Agrees(ns, table) && Once(ns) && PathsDiffer(dirents)
    requires forall d :: d in dirents ==> d.path !in table
    ensures Agrees(ns + multiset(dirents), Indexed(table, dirents)) && Once(ns + multiset(dirents))
    decreases |dirents|
  {
    hide Agrees, Once, PathsOf;
    if dirents == [] {
      assert ns + multiset(dirents) == ns;
    } else {
      var n := |dirents| - 1;
      var some, last := dirents[..n], dirents[n];
      assert dirents == some + [last];
      IndexedAgrees(ns, table, some);
      IndexedKeys(table, some);
      LastIsNew(dirents);
      AgreesWith(ns + multiset(some), last, Indexed(table, some));
      assert ns + multiset(dirents) == ns + multiset(some) + multiset{last};
    }
  }

  lemma LastIsNew(dirents: seq<Direntry>)
    requires PathsDiffer(dirents) && dirents != []
    ensures dirents[|dirents| - 1].path !in PathsOf(multiset(dirents[..|dirents| - 1]))
  {}

  lemma AddedUnder(t: Tree, s: Tree, dirents: seq<Direntry>, table: map<string, Direntry>)
    requires s in Subtrees(t) && Once(Nodes(t)) && Agrees(Nodes(t), table) && PathsDiffer(dirents)
    requires forall d :: d in dirents ==> d.path !in table
    ensures var t' := Replace(t, s.node, Leaves(dirents));
            && t'.node == t.node && Once(Nodes(t'))
            && (forall n :: n in Nodes(t') ==> n in Nodes(t) || n in dirents)
            && (Agrees(Nodes(t'), Indexed(table, dirents)) <==> s.kids == [])
  {
    hide Agrees, Once, Indexed, Nodes, NodesAll, Leaves, Subtrees;
    var t' := Replace(t, s.node, Leaves(dirents));
    LeavesNodes(dirents);
    ReplaceNodes(t, s, Leaves(dirents));
    IndexedAgrees(Nodes(t), table, dirents);
    AgreesUnlessLost(Nodes(t'), NodesAll(s.kids), Nodes(t) + multiset(dirents), Indexed(table, dirents));
    NoNodes(s.kids);
    assert forall n :: n in Nodes(t') ==> n in Nodes(t') + NodesAll(s.kids);
  }

  lemma NoNodes(ts: seq<Tree>)
    ensures NodesAll(ts) == multiset{} <==> ts == []
  {
    if ts != [] {
      assert ts[0].node in Nodes(ts[0]);
      assert ts[0].node in NodesAll(ts);
    }
  }

  // An index of all agrees with a part only if nothing is lost.
  lemma AgreesUnlessLost(part: multiset<Direntry>, lost: multiset<Direntry>, all: multiset<Direntry>,
                         table: map<string, Direntry>)
    requires part + lost == all && Once(all) && Agrees(all, table)
    ensures Once(part) && (Agrees(part, table) <==> lost == multiset{})
  {
    OnceParts(part, lost);
    if lost == multiset{} {
      assert part == all;
    } else {
      var k :| k in lost;
      assert k in all;
      assert table[k.path] == k && k !in part;
    }
  }

  // ---------- Looking up ----------

  datatype Status = Hit | NoEnt | Unknown

  // fsfuse_dirname of src/utils.c
  function Dirname(path: string): string {
    match LastSlash(path)
    case None => ""
    case Some(i) => if i == 0 then "/" else path[..i]
  }

  function LastSlash(s: string): (at: Option<nat>)
    ensures at.Some? ==> at.value < |s| && s[at.value] == '/' && '/' !in s[at.value + 1..]
    ensures at.None? ==> '/' !in s
    decreases |s|
  {
    if s == "" then None
    else if s[|s| - 1] == '/' then Some(|s| - 1)
    else
      var rest := s[..|s| - 1];
      var before := LastSlash(rest);
      assert s == rest + [s[|s| - 1]];
      assert before.Some? ==> s[before.value + 1..] == rest[before.value + 1..] + [s[|s| - 1]];
      before
  }

  // The parent of a path is what comes before its last slash, and the root where that is nothing.
  lemma DirnameOf(dir: string, name: string)
    requires '/' !in name
    ensures Dirname(dir + "/" + name) == if dir == "" then "/" else dir
    ensures Dirname(name) == ""
  {
    var path := dir + "/" + name;
    assert path[|dir|] == '/' && path[|dir| + 1..] == name && path[..|dir|] == dir;
    NoSlashAfter(path, |dir|);
    if LastSlash(path).Some? {
      NoSlashAfter(path, LastSlash(path).value);
    }
  }

  lemma NoSlashAfter(s: string, i: nat)
    requires i < |s| && '/' !in s[i + 1..]
    ensures forall k :: i < k < |s| ==> s[k] != '/'
  {
    assert forall k :: i < k < |s| ==> s[k] == s[i + 1..][k - i - 1];
  }

  lemma DirnameAt(path: string)
    ensures forall i :: 0 <= i < |path| && path[i] == '/' && '/' !in path[i + 1..] ==>
              Dirname(path) == if i == 0 then "/" else path[..i]
  {
    forall i | 0 <= i < |path| && path[i] == '/' && '/' !in path[i + 1..]
      ensures Dirname(path) == if i == 0 then "/" else path[..i]
    {
      assert path == path[..i] + "/" + path[i + 1..];
      DirnameOf(path[..i], path[i + 1..]);
    }
  }

  lemma {:induction false} ChainBelow(c: seq<Tree>, top: Tree, d: Direntry, k: nat, j: nat)
    requires IsChain(c, top, d) && k < j < |c|
    ensures c[j] in SubtreesAll(c[k].kids)
    decreases j
  {
    KidsAreSubtrees(c[j - 1].kids);
    if k < j - 1 {
      ChainBelow(c, top, d, k, j - 1);
      SubtreeNodesAll(c[k].kids, c[j - 1]);
    }
  }

  lemma FewerNodes(all: multiset<Direntry>, left: multiset<Direntry>, gone: multiset<Direntry>)
    requires left + gone == all
    ensures forall n :: n in left ==> n in all
  {
    assert forall n :: n in left ==> n in left + gone;
  }

  lemma BelowIsGone(t: Tree, c: seq<Tree>, d: Direntry, k: nat)
    requires IsChain(c, t, d) && k < |c| - 1
    ensures d.path in PathsOf(NodesAll(c[k].kids))
  {
    ChainBelow(c, t, d, k, |c| - 1);
    SubtreeNodesAll(c[k].kids, c[|c| - 1]);
    assert d in Nodes(c[|c| - 1]);
  }

  lemma ShapedWithin(t: Tree, s: Tree)
    requires Shaped(t) && s in Subtrees(t)
    ensures Shaped(s)
  {
    SubtreeNodes(t, s);
  }

  lemma RemovedBelow(t: Tree, s: Tree, table: map<string, Direntry>)
    requires s in Subtrees(t) && Once(Nodes(t)) && Agrees(Nodes(t), table)
    ensures var t' := Replace(t, s.node, []);
            && t'.node == t.node && Nodes(t') + NodesAll(s.kids) == Nodes(t) && Once(Nodes(t'))
            && (forall n :: n in Nodes(t') ==> n in Nodes(t))
            && Agrees(Nodes(t'), table - PathsOf(NodesAll(s.kids)))
  {
    ReplaceNodes(t, s, []);
    AgreesWithout(Nodes(t), Nodes(Replace(t, s.node, [])), NodesAll(s.kids), table);
  }

  lemma WithoutNone(table: map<string, Direntry>, ts: seq<Tree>)
    ensures table - PathsOf(NodesAll(ts[..0])) == table
  {}

  lemma WithoutKid(table: map<string, Direntry>, ts: seq<Tree>, i: nat)
    requires i < |ts|
    ensures table - PathsOf(NodesAll(ts[..i])) - PathsOf(Nodes(ts[i])) == table - PathsOf(NodesAll(ts[..i + 1]))
  {
    NodesAllSnoc(ts, i);
    WithoutMore(table, NodesAll(ts[..i]), Nodes(ts[i]));
  }

  lemma WithoutTop(table: map<string, Direntry>, t: Tree)
    ensures table - PathsOf(NodesAll(t.kids)) - {t.node.path} == table - PathsOf(Nodes(t))
  {
    assert PathsOf(multiset{t.node}) == {t.node.path};
    WithoutMore(table, NodesAll(t.kids), multiset{t.node});
    assert NodesAll(t.kids) + multiset{t.node} == Nodes(t);
  }

  lemma ShapedKid(t: Tree, i: nat)
    requires Shaped(t) && i < |t.kids|
    ensures Shaped(t.kids[i])
  {
    KidNodes(t.kids, i);
  }

  lemma ShapedAt(t: Tree)
    requires Shaped(t)
    ensures t.node.children == Heads(t.kids)
  {}
}
