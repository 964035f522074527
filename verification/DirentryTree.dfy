/** The trees of directory entries that scrap/direntry_cache.c keeps: the entries on the heap, linked by
    `children` and `parent`, and the tree that the child links make. */
module DirentryTrees {

  class Direntry {
    const path: string
    const isRoot: bool
    var parent: Direntry?
    var children: seq<Direntry>
    var lookedForChildren: bool
    var lastValid: int

    constructor (path: string, isRoot: bool)
      ensures this.path == path && this.isRoot == isRoot
      ensures parent == null && children == [] && !lookedForChildren && lastValid == 0
    {
      this.path, this.isRoot := path, isRoot;
      parent, children, lookedForChildren, lastValid := null, [], false, 0;
    }
  }

  // ---------- Trees ----------

  datatype Tree = Tree(node: Direntry, kids: seq<Tree>)

  function Heads(ts: seq<Tree>): (ds: seq<Direntry>)
    ensures |ds| == |ts| && forall i :: 0 <= i < |ts| ==> ds[i] == ts[i].node
    decreases |ts|
  {
    if ts == [] then [] else [ts[0].node] + Heads(ts[1..])
  }

  ghost function Nodes(t: Tree): multiset<Direntry>
    decreases t, 0
  {
    multiset{t.node} + NodesAll(t.kids)
  }

  ghost function NodesAll(ts: seq<Tree>): multiset<Direntry>
    decreases ts, 1
  {
    if ts == [] then multiset{} else Nodes(ts[0]) + NodesAll(ts[1..])
  }

  ghost function Subtrees(t: Tree): set<Tree>
    decreases t, 0
  {
    {t} + SubtreesAll(t.kids)
  }

  ghost function SubtreesAll(ts: seq<Tree>): set<Tree>
    decreases ts, 1
  {
    if ts == [] then {} else Subtrees(ts[0]) + SubtreesAll(ts[1..])
  }

  // The tree with other children under the node d.
  ghost function Replace(t: Tree, d: Direntry, ks: seq<Tree>): Tree
    decreases t, 0
  {
    if t.node == d then Tree(d, ks) else Tree(t.node, ReplaceAll(t.kids, d, ks))
  }

  ghost function ReplaceAll(ts: seq<Tree>, d: Direntry, ks: seq<Tree>): (r: seq<Tree>)
    ensures |r| == |ts|
    decreases ts, 1
  {
    if ts == [] then [] else [Replace(ts[0], d, ks)] + ReplaceAll(ts[1..], d, ks)
  }

  // No node twice.
  ghost predicate Once(ns: multiset<Direntry>) {
    forall n :: n in ns ==> ns[n] == 1
  }

  // ---------- Subtrees and nodes ----------

  lemma {:induction false} SubtreeNodes(t: Tree, s: Tree)
    requires s in Subtrees(t)
    ensures Nodes(s) <= Nodes(t) && Subtrees(s) <= Subtrees(t)
    decreases t, 0
  {
    if s != t {
      SubtreeNodesAll(t.kids, s);
    }
  }

  lemma {:induction false} SubtreeNodesAll(ts: seq<Tree>, s: Tree)
    requires s in SubtreesAll(ts)
    ensures Nodes(s) <= NodesAll(ts) && Subtrees(s) <= SubtreesAll(ts)
    decreases ts, 1
  {
    if s in Subtrees(ts[0]) {
      SubtreeNodes(ts[0], s);
    } else {
      SubtreeNodesAll(ts[1..], s);
    }
  }

  lemma {:induction false} KidNodes(ts: seq<Tree>, i: nat)
    requires i < |ts|
    ensures Nodes(ts[i]) <= NodesAll(ts) && Subtrees(ts[i]) <= SubtreesAll(ts)
    decreases |ts|
  {
    if i > 0 {
      KidNodes(ts[1..], i - 1);
    }
  }

  // Every node heads a subtree.
  lemma {:induction false} SubtreeAt(t: Tree, n: Direntry) returns (s: Tree)
    requires n in Nodes(t)
    ensures s in Subtrees(t) && s.node == n
    decreases t, 0
  {
    if n == t.node {
      s := t;
    } else {
      s := SubtreeAtAll(t.kids, n);
    }
  }

  lemma {:induction false} SubtreeAtAll(ts: seq<Tree>, n: Direntry) returns (s: Tree)
    requires n in NodesAll(ts)
    ensures s in SubtreesAll(ts) && s.node == n
    decreases ts, 1
  {
    if n in Nodes(ts[0]) {
      s := SubtreeAt(ts[0], n);
    } else {
      s := SubtreeAtAll(ts[1..], n);
    }
  }

  // ---------- Replacing children ----------

  lemma {:induction false} ReplaceAbsent(ts: seq<Tree>, d: Direntry, ks: seq<Tree>)
    requires d !in NodesAll(ts)
    ensures ReplaceAll(ts, d, ks) == ts
    decreases ts
  {
    if ts != [] {
      assert ts[0].node in Nodes(ts[0]);
      ReplaceAbsent(ts[0].kids, d, ks);
      ReplaceAbsent(ts[1..], d, ks);
    }
  }

  lemma OnceParts(a: multiset<Direntry>, b: multiset<Direntry>)
    requires Once(a + b)
    ensures Once(a) && Once(b) && forall n :: n in a ==> n !in b
  {
    assert forall n :: n in a ==> (a + b)[n] == a[n] + b[n];
    assert forall n :: n in b ==> (a + b)[n] == a[n] + b[n];
  }

  // What comes in for what goes out.
  lemma {:induction false} ReplaceNodes(t: Tree, s: Tree, ks: seq<Tree>)
    requires Once(Nodes(t)) && s in Subtrees(t)
    ensures Nodes(Replace(t, s.node, ks)) + NodesAll(s.kids) == Nodes(t) + NodesAll(ks)
    decreases t, 0
  {
    var top := multiset{t.node};
    OnceParts(top, NodesAll(t.kids));
    if s == t {
      assert Replace(t, s.node, ks) == Tree(t.node, ks);
      Exchange(top, NodesAll(ks), NodesAll(t.kids));
    } else {
      SubtreeNodesAll(t.kids, s);
      assert s.node in Nodes(s);
      assert t.node in top;
      var kids' := ReplaceAll(t.kids, s.node, ks);
      ReplaceNodesAll(t.kids, s, ks);
      assert Replace(t, s.node, ks) == Tree(t.node, kids');
      Carry(top, NodesAll(kids'), NodesAll(s.kids), NodesAll(t.kids), NodesAll(ks));
    }
  }

  lemma {:induction false} ReplaceNodesAll(ts: seq<Tree>, s: Tree, ks: seq<Tree>)
    requires Once(NodesAll(ts)) && s in SubtreesAll(ts)
    ensures NodesAll(ReplaceAll(ts, s.node, ks)) + NodesAll(s.kids) == NodesAll(ts) + NodesAll(ks)
    decreases ts, 1
  {
    var here, rest := Nodes(ts[0]), NodesAll(ts[1..]);
    OnceParts(here, rest);
    assert s.node in Nodes(s);
    var r := ReplaceAll(ts, s.node, ks);
    assert r[0] == Replace(ts[0], s.node, ks) && r[1..] == ReplaceAll(ts[1..], s.node, ks);
    assert NodesAll(r) == Nodes(r[0]) + NodesAll(r[1..]);
    if s in Subtrees(ts[0]) {
      SubtreeNodes(ts[0], s);
      ReplaceNodes(ts[0], s, ks);
      ReplaceAbsent(ts[1..], s.node, ks);
      Carry(rest, Nodes(r[0]), NodesAll(s.kids), here, NodesAll(ks));
    } else {
      SubtreeNodesAll(ts[1..], s);
      ReplaceNodesAll(ts[1..], s, ks);
      ReplaceAbsent([ts[0]], s.node, ks);
      assert [ts[0]][1..] == [];
      Carry(here, NodesAll(r[1..]), NodesAll(s.kids), rest, NodesAll(ks));
    }
  }

  lemma Exchange(top: multiset<Direntry>, came: multiset<Direntry>, went: multiset<Direntry>)
    ensures (top + came) + went == (top + went) + came
  {}

  lemma Carry(top: multiset<Direntry>, a: multiset<Direntry>, b: multiset<Direntry>, c: multiset<Direntry>, d: multiset<Direntry>)
    requires a + b == c + d
    ensures (top + a) + b == (top + c) + d && (a + top) + b == (c + top) + d
  {
    assert (top + a) + b == top + (a + b);
    assert (a + top) + b == top + (a + b);
  }

  // Where a subtree of the new tree comes from.
  lemma {:induction false} ReplaceSubtree(t: Tree, d: Direntry, ks: seq<Tree>, s': Tree) returns (s: Tree)
    requires s' in Subtrees(Replace(t, d, ks))
    ensures s' in SubtreesAll(ks) || (s in Subtrees(t) && s' == Replace(s, d, ks))
    decreases t, 0
  {
    s := t;
    if s' != Replace(t, d, ks) && t.node != d {
      s := ReplaceSubtreeAll(t.kids, d, ks, s');
    }
  }

  lemma {:induction false} ReplaceSubtreeAll(ts: seq<Tree>, d: Direntry, ks: seq<Tree>, s': Tree) returns (s: Tree)
    requires s' in SubtreesAll(ReplaceAll(ts, d, ks))
    ensures s' in SubtreesAll(ks) || (s in SubtreesAll(ts) && s' == Replace(s, d, ks))
    decreases ts, 1
  {
    var r := ReplaceAll(ts, d, ks);
    assert r[0] == Replace(ts[0], d, ks) && r[1..] == ReplaceAll(ts[1..], d, ks);
    if s' in Subtrees(r[0]) {
      s := ReplaceSubtree(ts[0], d, ks, s');
    } else {
      s := ReplaceSubtreeAll(ts[1..], d, ks, s');
    }
  }

  lemma {:induction false} ReplaceHeads(ts: seq<Tree>, d: Direntry, ks: seq<Tree>)
    ensures Heads(ReplaceAll(ts, d, ks)) == Heads(ts)
    decreases |ts|
  {
    if ts != [] {
      ReplaceHeads(ts[1..], d, ks);
    }
  }

  lemma {:induction false} NodesAllSnoc(ts: seq<Tree>, i: nat)
    requires i < |ts|
    ensures NodesAll(ts[..i + 1]) == NodesAll(ts[..i]) + Nodes(ts[i])
    decreases i
  {
    assert ts[..i + 1][0] == ts[0] && ts[..i + 1][1..] == ts[1..][..i];
    if i > 0 {
      assert ts[..i][0] == ts[0] && ts[..i][1..] == ts[1..][..i - 1];
      NodesAllSnoc(ts[1..], i - 1);
    }
  }

  // ---------- Old children and new ----------

  ghost predicate Kept(path: string, ds: seq<Direntry>) {
    exists d :: d in ds && d.path == path
  }

  // What the last old child of that path had below it.
  ghost function KidsFor(path: string, olds: seq<Tree>): seq<Tree>
    decreases |olds|
  {
    if olds == [] then []
    else
      var last := olds[|olds| - 1];
      if last.node.path == path then last.kids else KidsFor(path, olds[..|olds| - 1])
  }

  // The new children, each over what the old child of its path had.
  ghost function Regrown(ds: seq<Direntry>, olds: seq<Tree>): (ts: seq<Tree>)
    ensures |ts| == |ds| && forall i :: 0 <= i < |ts| ==> ts[i] == Tree(ds[i], KidsFor(ds[i].path, olds))
    decreases |ds|
  {
    if ds == [] then []
    else
      var last := ds[|ds| - 1];
      Regrown(ds[..|ds| - 1], olds) + [Tree(last, KidsFor(last.path, olds))]
  }

  // What leaves the tree: the old children, and what was below those with no successor.
  ghost function Dropped(olds: seq<Tree>, ds: seq<Direntry>): multiset<Direntry>
    decreases |olds|
  {
    if olds == [] then multiset{}
    else
      var last := olds[|olds| - 1];
      Dropped(olds[..|olds| - 1], ds)
      + (multiset{last.node} + if Kept(last.node.path, ds) then multiset{} else NodesAll(last.kids))
  }

  // What stays: that below the others.
  ghost function Carried(olds: seq<Tree>, ds: seq<Direntry>): multiset<Direntry>
    decreases |olds|
  {
    if olds == [] then multiset{}
    else
      var last := olds[|olds| - 1];
      Carried(olds[..|olds| - 1], ds) + if Kept(last.node.path, ds) then NodesAll(last.kids) else multiset{}
  }

  ghost predicate OldPathsDiffer(olds: seq<Tree>) {
    forall i, j :: 0 <= i < j < |olds| ==> olds[i].node.path != olds[j].node.path
  }

  predicate PathsDiffer(ds: seq<Direntry>) {
    forall i, j :: 0 <= i < j < |ds| ==> ds[i].path != ds[j].path
  }

  lemma Middle(a: multiset<Direntry>, b: multiset<Direntry>, c: multiset<Direntry>, d: multiset<Direntry>)
    ensures (a + b) + (c + d) == (a + c) + (b + d)
  {}

  lemma Swap(a: multiset<Direntry>, b: multiset<Direntry>, c: multiset<Direntry>)
    ensures a + b + c == a + c + b
  {}

  lemma {:induction false} DroppedOrCarried(olds: seq<Tree>, ds: seq<Direntry>)
    ensures Dropped(olds, ds) + Carried(olds, ds) == NodesAll(olds)
    decreases |olds|
  {
    if olds != [] {
      var n := |olds| - 1;
      DroppedOrCarried(olds[..n], ds);
      NodesAllSnoc(olds, n);
      assert olds[..n + 1] == olds;
      var kept := Kept(olds[n].node.path, ds);
      var top, below := multiset{olds[n].node}, NodesAll(olds[n].kids);
      var goes, stays := top + (if kept then multiset{} else below), if kept then below else multiset{};
      assert goes + stays == Nodes(olds[n]);
      Middle(Dropped(olds[..n], ds), goes, Carried(olds[..n], ds), stays);
    }
  }

  lemma {:induction false} KidsForNone(path: string, olds: seq<Tree>)
    requires forall i :: 0 <= i < |olds| ==> olds[i].node.path != path
    ensures KidsFor(path, olds) == []
    decreases |olds|
  {
    if olds != [] {
      KidsForNone(path, olds[..|olds| - 1]);
    }
  }

  lemma KeptSnoc(path: string, ds: seq<Direntry>, d: Direntry)
    ensures Kept(path, ds + [d]) <==> Kept(path, ds) || path == d.path
  {
    if Kept(path, ds) {
      var e :| e in ds && e.path == path;
      assert e in ds + [d];
    }
    assert d in ds + [d];
  }

  // One more new child carries what the old child of its path had.
  lemma {:induction false} CarriedSnoc(olds: seq<Tree>, ds: seq<Direntry>, d: Direntry)
    requires OldPathsDiffer(olds) && !Kept(d.path, ds)
    ensures Carried(olds, ds + [d]) == Carried(olds, ds) + NodesAll(KidsFor(d.path, olds))
    decreases |olds|
  {
    hide Kept;
    if olds == [] {
      assert NodesAll([]) == multiset{};
    } else {
      var n := |olds| - 1;
      CarriedSnoc(olds[..n], ds, d);
      KeptSnoc(olds[n].node.path, ds, d);
      var before, mine := Carried(olds[..n], ds), NodesAll(olds[n].kids);
      if olds[n].node.path == d.path {
        KidsForNone(d.path, olds[..n]);
        assert before + multiset{} == before;
      } else {
        var kept := if Kept(olds[n].node.path, ds) then mine else multiset{};
        Swap(before, NodesAll(KidsFor(d.path, olds[..n])), kept);
      }
    }
  }

  lemma {:induction false} RegrownNodes(ds: seq<Direntry>, olds: seq<Tree>)
    requires OldPathsDiffer(olds) && PathsDiffer(ds)
    ensures NodesAll(Regrown(ds, olds)) == multiset(ds) + Carried(olds, ds)
    decreases |ds|
  {
    if ds == [] {
      NothingCarried(olds, ds);
    } else {
      var n := |ds| - 1;
      RegrownNodes(ds[..n], olds);
      CarriedSnoc(olds, ds[..n], ds[n]);
      assert ds == ds[..n] + [ds[n]];
      var ts := Regrown(ds, olds);
      NodesAllSnoc(ts, n);
      assert ts[..n + 1] == ts && ts[..n] == Regrown(ds[..n], olds);
      Middle(multiset(ds[..n]), Carried(olds, ds[..n]), multiset{ds[n]}, NodesAll(KidsFor(ds[n].path, olds)));
      assert multiset(ds) == multiset(ds[..n]) + multiset{ds[n]};
    }
  }

  lemma {:induction false} NothingCarried(olds: seq<Tree>, ds: seq<Direntry>)
    requires ds == []
    ensures Carried(olds, ds) == multiset{}
    decreases |olds|
  {
    if olds != [] {
      NothingCarried(olds[..|olds| - 1], ds);
    }
  }

  lemma {:induction false} KidsForSubtrees(path: string, olds: seq<Tree>)
    ensures KidsFor(path, olds) == [] || exists o :: o in olds && o.node.path == path && KidsFor(path, olds) == o.kids
    decreases |olds|
  {
    if olds != [] {
      KidsForSubtrees(path, olds[..|olds| - 1]);
    }
  }

  // A subtree of the new children is a new child or a subtree below an old one.
  lemma {:induction false} RegrownSubtree(ds: seq<Direntry>, olds: seq<Tree>, x: Tree) returns (i: nat)
    requires x in SubtreesAll(Regrown(ds, olds))
    ensures i < |ds| && (x == Regrown(ds, olds)[i] || x in SubtreesAll(KidsFor(ds[i].path, olds)))
  {
    i := SomeKid(Regrown(ds, olds), x);
  }

  lemma {:induction false} SomeKid(ts: seq<Tree>, x: Tree) returns (i: nat)
    requires x in SubtreesAll(ts)
    ensures i < |ts| && x in Subtrees(ts[i])
    decreases |ts|
  {
    if x in Subtrees(ts[0]) {
      i := 0;
    } else {
      i := SomeKid(ts[1..], x);
      i := i + 1;
    }
  }
}
