/** The map from inodes to entries (src/nativefs/inode_map.c), the lookups over it (src/nativefs/direntry.c) and what
    gives their references back (src/fuse_methods/forget.c).

    The inode map takes the inode beside the entry, as its definition does; callers pass the entry's own. */
module InodeMaps {
  import opened Wrappers

  const INODE_MAP_MOD := 32
  const FSFUSE_ROOT_INODE := 1
  const ENOENT := 2

  datatype Call = Lookup(parent: nat, name: string) | Forget(inode: nat, nlookup: nat)

  class Direntry {
    const inode: nat
    const name: string
    // The pointer to its counter may be null.
    var counter: Option<nat>
    var next: Direntry?       // sibling
    var children: Direntry?   // first child
    ghost var kids: seq<Direntry>
    ghost var freed: bool

    // direntry_new_root, as calloc leaves the entry: nothing makes a counter for it.
    constructor Root()
      ensures inode == FSFUSE_ROOT_INODE && name == "" && counter == None
      ensures !freed && next == null && children == null && kids == []
    {
      inode, name, counter := FSFUSE_ROOT_INODE, "", None;
      freed, next, children, kids := false, null, null, [];
    }

    // direntry_from_listing: the listing has a counter, with so many references.
    constructor FromListing(inode: nat, name: string, references: nat)
      requires references > 0
      ensures this.inode == inode && this.name == name && counter == Some(references)
      ensures !freed && next == null && children == null && kids == []
    {
      this.inode, this.name, counter := inode, name, Some(references);
      freed, next, children, kids := false, null, null, [];
    }

    function Count(): nat
      reads this`counter
    {
      if counter.Some? then counter.value else 0
    }

    method Copy()
      requires Count() > 0
      modifies this`counter
      ensures Count() == old(Count()) + 1
    {
      counter := Some(counter.value + 1);
    }

    method Delete()
      requires Count() > 0 && !freed
      modifies this`counter, this`freed
      ensures Count() == old(Count()) - 1 && (freed <==> Count() == 0)
    {
      counter := Some(counter.value - 1);
      if counter.value == 0 {
        freed := true;
      }
    }

    // The children and their sibling links.
    ghost predicate Linked()
      reads this`children, this`kids, kids`next
    {
      && children == (if kids == [] then null else kids[0])
      && forall i {:trigger kids[i].next} :: 0 <= i < |kids| ==>
           kids[i].next == if i + 1 < |kids| then kids[i + 1] else null
    }
  }

  // Some reference keeps each of them.
  ghost predicate Held(s: set<Direntry>)
    reads s`counter, s`freed
  {
    forall e :: e in s ==> e.Count() > 0 && !e.freed
  }

  // ---------- The map ----------

  function Grown(size: nat, inode: nat): nat {
    if inode >= size then size + INODE_MAP_MOD else size
  }

  // One step of growth makes room exactly for inodes less than a step past the end.
  lemma GrowthSuffices(size: nat, inode: nat)
    ensures inode < Grown(size, inode) <==> inode < size + 32
    ensures Grown(size, inode) == size || Grown(size, inode) == size + 32
  {}

  class InodeMap {
    var slots: array<Direntry?>
    var used: nat
    var nextInode: nat

    // Inodes come one after the other, and each from 1 on is where it says; slot 0 is never written.
    ghost predicate Valid()
      reads this, slots
    {
      && used <= slots.Length && used != 1 && nextInode == (if used == 0 then 2 else used)
      && forall i :: 1 <= i < used ==> slots[i] != null && slots[i].inode == i
    }

    constructor ()
      ensures Valid() && used == 0 && fresh(slots)
    {
      slots := new Direntry?[0];
      used, nextInode := 0, 2;
    }

    // An entry without a counter has the null pointer for one, which is followed: then there is no going on.
    method Add(inode: nat, de: Direntry) returns (ok: bool)
      requires inode < slots.Length + INODE_MAP_MOD && (de.counter.Some? ==> de.counter.value > 0)
      modifies this`slots, this`used, slots, de`counter
      ensures ok <==> old(de.counter).Some?
      ensures slots.Length == Grown(old(slots.Length), inode) && (slots == old(slots) || fresh(slots))
      ensures ok ==> slots[inode] == de && used == inode + 1 && de.Count() == old(de.Count()) + 1
      ensures forall i :: 0 <= i < old(slots.Length) && i != inode ==> slots[i] == old(slots[i])
      ensures !ok ==> used == old(used) && de.counter == old(de.counter)
                      && (inode < old(slots.Length) ==> slots[inode] == old(slots[inode]))
    {
      GrowthSuffices(slots.Length, inode);
      if inode >= slots.Length {
        var bigger := new Direntry?[slots.Length + INODE_MAP_MOD];
        forall i | 0 <= i < slots.Length {
          bigger[i] := slots[i];
        }
        slots := bigger;
      }
      if de.counter.None? {
        return false;
      }
      de.Copy();
      slots[inode] := de;
      used := inode + 1;
      ok := true;
    }

    /** What direntry_new_root does with its entry, when the map has nothing in it yet.  With a counter of one reference
        the caller would have that one, and the map another. */
    method AddRoot(de: Direntry) returns (ok: bool)
      requires Valid() && used == 0 && de.inode == FSFUSE_ROOT_INODE && (de.counter.Some? ==> de.counter.value > 0)
      modifies this`slots, this`used, slots, de`counter
      ensures Valid() && (ok <==> old(de.counter).Some?)
      ensures if ok then used == 2 && slots[1] == de && de.Count() == old(de.Count()) + 1 else used == 0
      ensures slots == old(slots) || fresh(slots)
    {
      ok := Add(FSFUSE_ROOT_INODE, de);
    }

    // direntry_init.  The root is made without a counter, so the start ends at the null pointer, with nothing in the map.
    method DirentryInit() returns (ok: bool)
      requires Valid() && used == 0
      modifies this`slots, this`used, slots
      ensures !ok && Valid() && used == 0
      ensures slots == old(slots) || fresh(slots)
    {
      var de := new Direntry.Root();
      // The source goes on to give its own reference back, but never gets there.
      ok := AddRoot(de);
    }

    /** direntry_from_listing: the next inode is always within a step of the end.  The entry keeps the counter of
        the listing it is made from, with the references that there are to that. */
    method AddNext(name: string, references: nat) returns (de: Direntry)
      requires Valid() && used > 0 && references > 0
      modifies this, slots
      ensures Valid() && used == old(used) + 1 && slots[old(used)] == de
      ensures forall i :: 1 <= i < old(used) ==> slots[i] == old(slots[i])
      ensures fresh(de) && de.inode == old(used) && de.name == name && de.Count() == references + 1 && !de.freed
      ensures slots == old(slots) || fresh(slots)
    {
      var inode := nextInode;
      nextInode := nextInode + 1;
      de := new Direntry.FromListing(inode, name, references);
      var _ := Add(inode, de);
    }

    // A reference to the entry of that inode, if it has been issued.
    method Get(inode: nat) returns (de: Direntry?)
      requires Valid() && inode >= 1
      requires inode < used ==> slots[inode].Count() > 0
      modifies (if inode < used then {slots[inode]} else {})`counter
      ensures de == if inode < used then slots[inode] else null
      ensures de != null ==> de.inode == inode && de.Count() == old(de.Count()) + 1
    {
      if inode < used {
        de := slots[inode];
        de.Copy();
      } else {
        de := null;
      }
    }

    // The entries that a lookup under `parent` can touch.
    ghost function Family(parent: nat): set<Direntry>
      requires Valid() && 1 <= parent
      reads this, slots, if parent < used then {slots[parent]} else {}
    {
      if parent < used then {slots[parent]} + Elems(slots[parent].kids) else {}
    }

    /** Lookup, the children loaded.  The first child of that name comes back with one reference more, and no
        other entry's count is changed, found or not. */
    method GetChildByName(parent: nat, name: string) returns (rc: int, child: Direntry?)
      requires Valid() && parent >= 1
      requires parent < used ==> slots[parent].Linked()
      requires Held(Family(parent))
      modifies Family(parent)`counter, Family(parent)`freed
      ensures child == if parent < used then FirstNamed(slots[parent].kids, name) else null
      ensures rc == if child != null then 0 else 2
      ensures forall e :: e in Family(parent) ==> e.Count() == old(e.Count()) + (if e == child then 1 else 0)
      ensures Held(Family(parent))
    {
      child := null;
      if parent >= used {
        return ENOENT, null;
      }
      var de: Direntry := slots[parent];
      ghost var family := Family(parent);
      de.Copy();
      rc, child := FindChild(de, name, family);
      de.Delete();
    }

    /** Drops the references of that many lookups.  The map's own stays, so that nothing is freed unless more
        is forgotten than was ever looked up. */
    method Forget(inode: nat, nlookup: nat)
      requires Valid() && inode >= 1
      requires inode < used ==> !slots[inode].freed && slots[inode].Count() > 0 && nlookup <= slots[inode].Count()
      modifies (if inode < used then {slots[inode]} else {})`counter, (if inode < used then {slots[inode]} else {})`freed
      ensures inode < used ==> slots[inode].Count() == old(slots[inode].Count()) - nlookup
                               && (slots[inode].freed <==> slots[inode].Count() == 0)
    {
      var de := Get(inode);
      if de == null {
        return;
      }
      de.Delete();
      var left := nlookup;
      while left > 0
        invariant de.Count() == old(de.Count()) - (nlookup - left) && (de.freed <==> de.Count() == 0)
        invariant 0 <= left <= nlookup
      {
        left := left - 1;
        de.Delete();
      }
    }

    // ---------- Runs ----------

    // Every entry there is.
    ghost function Entries(): set<Direntry>
      requires Valid()
      reads this, slots
    {
      set i | 1 <= i < used :: slots[i]
    }

    // The children of every entry are in the map themselves, and are linked.
    ghost predicate Closed()
      requires Valid()
      reads this, slots, Entries()`children, Entries()`kids, Entries()`next
    {
      && (forall e :: e in Entries() ==> Elems(e.kids) <= Entries())
      && forall e :: e in Entries() ==> e.Linked()
    }

    // What a lookup finds.
    ghost function ChildAt(parent: nat, name: string): Direntry?
      requires Valid()
      reads this, slots, Entries()`kids
    {
      if 1 <= parent < used then FirstNamed(slots[parent].kids, name) else null
    }

    // What a lookup answers, with ENOENT as None.
    ghost function Answer(c: Call): Option<nat>
      requires Valid()
      reads this, slots, Entries()`kids
    {
      match c
      case Lookup(parent, name) => var child := ChildAt(parent, name); if child == null then None else Some(child.inode)
      case Forget(_, _) => None
    }

    /** The lookups outstanding after a call, of each inode.  Nothing is forgotten that was not looked up: such a
        call is not made. */
    ghost function After(c: Call, out: multiset<nat>): multiset<nat>
      requires Valid()
      reads this, slots, Entries()`kids
    {
      match c
      case Lookup(_, _) => if Answer(c).None? then out else out + multiset{Answer(c).value}
      case Forget(inode, nlookup) => if nlookup <= out[inode] then out[inode := out[inode] - nlookup] else out
    }

    ghost function Outstanding(calls: seq<Call>): multiset<nat>
      requires Valid()
      reads this, slots, Entries()`kids
      decreases |calls|
    {
      if calls == [] then multiset{} else After(calls[|calls| - 1], Outstanding(calls[..|calls| - 1]))
    }

    lemma OutstandingSnoc(calls: seq<Call>, n: nat)
      requires Valid() && n < |calls|
      ensures Outstanding(calls[..n + 1]) == After(calls[n], Outstanding(calls[..n]))
    {
      assert calls[..n + 1][..n] == calls[..n];
    }

    // So many lookups of a name that is there, and forgetting as many, leave what was outstanding before.
    lemma {:induction false} LookUps(calls: seq<Call>, parent: nat, name: string, n: nat)
      requires Valid() && ChildAt(parent, name) != null
      ensures Outstanding(calls + Lookups(parent, name, n)) == Outstanding(calls) + multiset{}[ChildAt(parent, name).inode := n]
    {
      hide ChildAt;
      var i, looked := ChildAt(parent, name).inode, calls + Lookups(parent, name, n);
      if n == 0 {
        assert looked == calls;
      } else {
        LookUps(calls, parent, name, n - 1);
        var before := calls + Lookups(parent, name, n - 1);
        assert looked == before + [Lookup(parent, name)];
        assert looked[..|looked| - 1] == before;
        assert Answer(Lookup(parent, name)) == Some(i);
      }
    }

    lemma LookUpAndForget(calls: seq<Call>, parent: nat, name: string, n: nat)
      requires Valid() && ChildAt(parent, name) != null
      ensures Outstanding(calls + Lookups(parent, name, n) + [Call.Forget(ChildAt(parent, name).inode, n)]) == Outstanding(calls)
    {
      hide ChildAt;
      var i, looked := ChildAt(parent, name).inode, calls + Lookups(parent, name, n);
      LookUps(calls, parent, name, n);
      var all := looked + [Call.Forget(i, n)];
      assert all[..|all| - 1] == looked;
    }

    ghost function Lookups(parent: nat, name: string, n: nat): seq<Call> {
      if n == 0 then [] else Lookups(parent, name, n - 1) + [Lookup(parent, name)]
    }

    lemma ChildIsEntry(parent: nat, name: string)
      requires Valid() && Closed()
      ensures var child := ChildAt(parent, name);
              child != null ==> child in Entries() && 1 <= child.inode < used && slots[child.inode] == child
    {
      if 1 <= parent < used {
        FirstNamedIn(slots[parent].kids, name);
        assert slots[parent] in Entries();
      }
    }

    lemma FamilyIsHeld(parent: nat)
      requires Valid() && Closed() && 1 <= parent && Held(Entries())
      ensures Held(Family(parent)) && Family(parent) <= Entries()
      ensures parent < used ==> slots[parent].Linked()
    {
      if parent < used {
        assert slots[parent] in Entries();
      }
    }

    // The counts of all, which go by inode, and the one that has changed.
    ghost predicate Counts(counts: map<nat, nat>, out: multiset<nat>)
      requires Valid()
      reads this, slots, Entries()`counter
    {
      && (forall i :: i in out ==> 1 <= i < used)
      && forall i :: 1 <= i < used ==> i in counts && counts[i] > 0 && slots[i].Count() == counts[i] + out[i]
    }

    method LookUp(parent: nat, name: string) returns (child: Direntry?)
      requires Valid() && Closed() && Held(Entries())
      modifies Entries()`counter, Entries()`freed
      ensures Held(Entries()) && child == ChildAt(parent, name)
      ensures forall e :: e in Entries() ==> e.Count() == old(e.Count()) + (if e == child then 1 else 0)
    {
      hide Closed;
      ghost var entries := Entries();
      child := null;
      if parent >= 1 {
        FamilyIsHeld(parent);
        ghost var family := Family(parent);
        var rc;
        ChildInFamily(parent, name);
        rc, child := GetChildByName(parent, name);
        assert forall e :: e in entries && e !in family ==> e.Count() == old(e.Count());
      }
    }

    lemma ChildInFamily(parent: nat, name: string)
      requires Valid() && 1 <= parent
      ensures ChildAt(parent, name) != null ==> ChildAt(parent, name) in Family(parent)
    {
      if parent < used {
        FirstNamedIn(slots[parent].kids, name);
      }
    }

    method ServeLookup(parent: nat, name: string, ghost counts: map<nat, nat>, ghost out: multiset<nat>)
        returns (answer: Option<nat>)
      requires Valid() && Closed() && Held(Entries()) && Counts(counts, out)
      modifies Entries()`counter, Entries()`freed
      ensures Held(Entries()) && answer == Answer(Lookup(parent, name))
      ensures Counts(counts, if answer.None? then out else out + multiset{answer.value})
    {
      hide Closed, Held;
      ghost var entries := Entries();
      ChildIsEntry(parent, name);
      var child := LookUp(parent, name);
      answer := if child == null then None else Some(child.inode);
      assert forall i :: 1 <= i < used ==> slots[i] in entries && (slots[i] == child <==> child != null && child.inode == i);
    }

    method ServeForget(inode: nat, nlookup: nat, ghost counts: map<nat, nat>, ghost out: multiset<nat>)
      requires Valid() && Held(Entries()) && Counts(counts, out) && nlookup <= out[inode]
      modifies Entries()`counter, Entries()`freed
      ensures Held(Entries()) && Counts(counts, out[inode := out[inode] - nlookup])
    {
      ghost var entries := Entries();
      if 1 <= inode {
        assert inode < used ==> slots[inode] in entries;
        Forget(inode, nlookup);
      }
    }

    method Serve(c: Call, ghost counts: map<nat, nat>, out: multiset<nat>) returns (answer: Option<nat>, out': multiset<nat>)
      requires Valid() && Closed() && Held(Entries()) && Counts(counts, out)
      modifies Entries()`counter, Entries()`freed
      ensures Held(Entries()) && Counts(counts, out') && answer == Answer(c) && out' == After(c, out)
    {
      hide Closed, Held, Counts;
      answer, out' := None, out;
      match c {
        case Lookup(parent, name) =>
          answer := ServeLookup(parent, name, counts, out);
          if answer.Some? {
            out' := out + multiset{answer.value};
          }
        case Forget(inode, nlookup) =>
          if nlookup <= out[inode] {
            ServeForget(inode, nlookup, counts, out);
            out' := out[inode := out[inode] - nlookup];
          }
      }
    }

    /** Any lookups and forgets: each lookup answers with the first child of that name, each count is what it was at
        first and one more for each lookup outstanding, and nothing is ever freed.  So where all that was looked up
        has been forgotten, every count is what it was. */
    method Session(calls: seq<Call>) returns (answers: seq<Option<nat>>)
      requires Valid() && Closed() && Held(Entries())
      modifies Entries()`counter, Entries()`freed
      ensures Held(Entries())
      ensures forall i :: 1 <= i < used ==> slots[i].Count() == old(slots[i].Count()) + Outstanding(calls)[i]
      ensures |answers| == |calls| && forall k :: 0 <= k < |calls| ==> answers[k] == Answer(calls[k])
    {
      hide Closed, Held, Counts, Outstanding, Answer, After;
      ghost var entries, counts := Entries(), map i: nat | 1 <= i < used :: slots[i].Count();
      AtFirst(counts);
      answers := [];
      var out: multiset<nat> := multiset{};
      var n := 0;
      assert calls[..0] == [];
      while n < |calls|
        invariant 0 <= n <= |calls| && |answers| == n
        invariant Held(entries) && out == Outstanding(calls[..n]) && Counts(counts, out)
        invariant forall k :: 0 <= k < n ==> answers[k] == Answer(calls[k])
        modifies entries`counter, entries`freed
      {
        OutstandingSnoc(calls, n);
        var answer;
        answer, out := Serve(calls[n], counts, out);
        answers := answers + [answer];
        n := n + 1;
      }
      assert calls[..n] == calls;
      AtLast(counts, out);
    }

    lemma AtFirst(counts: map<nat, nat>)
      requires Valid() && Held(Entries()) && counts == map i: nat | 1 <= i < used :: slots[i].Count()
      ensures Counts(counts, multiset{}) && Outstanding([]) == multiset{}
    {
      assert forall i :: 1 <= i < used ==> slots[i] in Entries();
    }

    lemma AtLast(counts: map<nat, nat>, out: multiset<nat>)
      requires Valid() && Counts(counts, out)
      ensures forall i :: 1 <= i < used ==> i in counts && slots[i].Count() == counts[i] + out[i]
    {}
  }

  // The walk along the siblings.  It holds a reference to one child at a time, and keeps that to the one it finds.
  method FindChild(de: Direntry, name: string, ghost family: set<Direntry>) returns (rc: int, child: Direntry?)
    requires de.Linked() && Held(family) && Elems(de.kids) <= family
    modifies family`counter, family`freed
    ensures child == FirstNamed(de.kids, name) && rc == (if child != null then 0 else ENOENT)
    ensures forall e :: e in family ==> e.Count() == old(e.Count()) + (if e == child then 1 else 0) && !e.freed
  {
    ghost var kids := de.kids;
    rc := ENOENT;
    child := de.children;
    if child != null {
      child.Copy();
    }
    ghost var i := 0;
    while child != null
      invariant 0 <= i <= |kids|
      invariant child == if i < |kids| then kids[i] else null
      invariant FirstNamed(kids, name) == FirstNamed(kids[i..], name)
      invariant forall e :: e in family ==> e.Count() == old(e.Count()) + (if e == child then 1 else 0) && !e.freed
      decreases |kids| - i
    {
      if child.name == name {
        return 0, child;
      }
      var oldChild := child;
      child := child.next;
      if child != null {
        child.Copy();
      }
      oldChild.Delete();
      assert kids[i..][1..] == kids[i + 1..];
      i := i + 1;
    }
  }

  ghost function Elems(ds: seq<Direntry>): set<Direntry> {
    set d | d in ds
  }

  ghost function FirstNamed(kids: seq<Direntry>, name: string): Direntry?
    decreases |kids|
  {
    if kids == [] then null else if kids[0].name == name then kids[0] else FirstNamed(kids[1..], name)
  }

  lemma {:induction false} FirstNamedIn(kids: seq<Direntry>, name: string)
    ensures var found := FirstNamed(kids, name);
            if found == null then forall k :: k in kids ==> k.name != name
            else exists i :: 0 <= i < |kids| && kids[i] == found && found.name == name
                             && forall j :: 0 <= j < i ==> kids[j].name != name
    decreases |kids|
  {
    if kids != [] {
      FirstNamedIn(kids[1..], name);
      var found := FirstNamed(kids, name);
      if found != null {
        if kids[0].name == name {
          assert kids[0] == found;
        } else {
          var i :| 0 <= i < |kids[1..]| && kids[1..][i] == found && found.name == name
                   && forall j :: 0 <= j < i ==> kids[1..][j].name != name;
          assert kids[i + 1] == found;
          assert forall j :: 0 < j < i + 1 ==> kids[j] == kids[1..][j - 1];
        }
      }
    }
  }
}
