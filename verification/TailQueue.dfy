/** The TAILQ macros of src/3rdparty/queue.h, on the heap.

    A TAILQ keeps, besides forward links, the addresses of the pointers that point at its elements:
    `tqe_prev` and `tqh_last` are pointers to pointers.  Such an address is a value here, `Addr`: it is
    the address of some head's first field, or of some element's next field, or not set yet. */
module TailQueues {

  datatype Addr<T> = Unset | FirstOf(head: Head<T>) | NextOf(elem: Elem<T>) {

    // The object that holds the pointer.
    function Owner(): set<object> {
      match this
      case Unset => {}
      case FirstOf(h) => {h}
      case NextOf(e) => {e}
    }
  }

  class Head<T> {
    var first: Elem?<T>
    var last: Addr<T>

    // TAILQ_INIT
    constructor ()
      ensures IsQueue(this, [])
    {
      first, last := null, Unset;
      new;
      last := FirstOf(this);
    }
  }

  class Elem<T> {
    const data: T
    var next: Elem?<T>
    var prev: Addr<T>

    constructor (data: T)
      ensures this.data == data
    {
      this.data := data;
      next, prev := null, Unset;
    }
  }

  // *addr
  function Load<T>(a: Addr<T>): Elem?<T>
    requires !a.Unset?
    reads a.Owner()
  {
    match a
    case FirstOf(h) => h.first
    case NextOf(e) => e.next
  }

  // *addr = v
  method Store<T>(a: Addr<T>, v: Elem?<T>)
    requires !a.Unset?
    modifies a.Owner()
    ensures a.FirstOf? ==> a.head.first == v && a.head.last == old(a.head.last)
    ensures a.NextOf? ==> a.elem.next == v && a.elem.prev == old(a.elem.prev)
  {
    match a
    case FirstOf(h) => h.first := v;
    case NextOf(e) => e.next := v;
  }

  /** ((struct headname *) addr)->tqh_last.  Head and entry have the same layout, a pointer and an
      address, so this is the head's last field or the element's prev field. */
  function LastField<T>(a: Addr<T>): Addr<T>
    requires !a.Unset?
    reads a.Owner()
  {
    match a
    case FirstOf(h) => h.last
    case NextOf(e) => e.prev
  }

  // s is the queue that hangs from h.
  ghost predicate IsQueue<T>(h: Head<T>, s: seq<Elem<T>>)
    reads h, s
  {
    && (forall i, j :: 0 <= i < j < |s| ==> s[i] != s[j])
    && h.first == (if s == [] then null else s[0])
    && h.last == (if s == [] then FirstOf(h) else NextOf(s[|s| - 1]))
    && (forall i {:trigger s[i].next} :: 0 <= i < |s| - 1 ==> s[i].next == s[i + 1])
    && (forall i {:trigger s[i].prev} :: 1 <= i < |s| ==> s[i].prev == NextOf(s[i - 1]))
    && (s != [] ==> s[|s| - 1].next == null && s[0].prev == FirstOf(h))
  }

  // ---------- Access ----------

  function Last<T>(h: Head<T>): Elem?<T>
    requires !h.last.Unset? && !LastField(h.last).Unset?
    reads h, h.last.Owner(), LastField(h.last).Owner()
  {
    Load(LastField(h.last))
  }

  function Prev<T>(e: Elem<T>): Elem?<T>
    requires !e.prev.Unset? && !LastField(e.prev).Unset?
    reads e, e.prev.Owner(), LastField(e.prev).Owner()
  {
    Load(LastField(e.prev))
  }

  // TAILQ_LAST, through two reinterpreted addresses, is the last element.
  lemma LastIsLast<T>(h: Head<T>, s: seq<Elem<T>>)
    requires IsQueue(h, s)
    ensures !h.last.Unset? && !LastField(h.last).Unset?
    ensures Last(h) == if s == [] then null else s[|s| - 1]
  {
    if |s| > 1 {
      assert s[|s| - 1].prev == NextOf(s[|s| - 2]);
      assert s[|s| - 2].next == s[|s| - 1];
    }
  }

  // TAILQ_PREV is the element before, or nothing for the first one.
  lemma PrevIsPrevious<T>(h: Head<T>, s: seq<Elem<T>>, i: nat)
    requires IsQueue(h, s) && i < |s|
    ensures !s[i].prev.Unset? && !LastField(s[i].prev).Unset?
    ensures Prev(s[i]) == if i == 0 then null else s[i - 1]
  {
    if i == 0 {
      assert h.last == NextOf(s[|s| - 1]);
    } else {
      assert s[i].prev == NextOf(s[i - 1]);
      if i > 1 {
        assert s[i - 1].prev == NextOf(s[i - 2]);
        assert s[i - 2].next == s[i - 1];
      }
    }
  }

  // ---------- Change ----------

  method InsertHead<T>(h: Head<T>, e: Elem<T>, ghost s: seq<Elem<T>>)
    requires IsQueue(h, s) && e !in s
    modifies h, e, s
    ensures IsQueue(h, [e] + s)
  {
    e.next := h.first;
    if e.next != null {
      h.first.prev := NextOf(e);
    } else {
      h.last := NextOf(e);
    }
    h.first := e;
    e.prev := FirstOf(h);
  }

  method InsertTail<T>(h: Head<T>, e: Elem<T>, ghost s: seq<Elem<T>>)
    requires IsQueue(h, s) && e !in s
    modifies h, e, s
    ensures IsQueue(h, s + [e])
  {
    e.next := null;
    e.prev := h.last;
    Store(h.last, e);
    h.last := NextOf(e);
  }

  method InsertAfter<T>(h: Head<T>, listElem: Elem<T>, e: Elem<T>, ghost s: seq<Elem<T>>, ghost i: nat)
    requires IsQueue(h, s) && e !in s && i < |s| && s[i] == listElem
    modifies h, e, s
    ensures IsQueue(h, s[..i + 1] + [e] + s[i + 1..])
  {
    e.next := listElem.next;
    if e.next != null {
      e.next.prev := NextOf(e);
    } else {
      h.last := NextOf(e);
    }
    listElem.next := e;
    e.prev := NextOf(listElem);
  }

  // Needs no head: the element before is reached through its stored address.
  method InsertBefore<T>(listElem: Elem<T>, e: Elem<T>, ghost h: Head<T>, ghost s: seq<Elem<T>>, ghost i: nat)
    requires IsQueue(h, s) && e !in s && i < |s| && s[i] == listElem
    modifies h, e, s
    ensures IsQueue(h, s[..i] + [e] + s[i..])
  {
    e.prev := listElem.prev;
    e.next := listElem;
    Store(listElem.prev, e);
    listElem.prev := NextOf(e);
    LinkedBefore(h, s, i, e);
  }

  // What the links are when those around s[i] have been turned to e.
  lemma LinkedBefore<T>(h: Head<T>, s: seq<Elem<T>>, i: nat, e: Elem<T>)
    requires i < |s| && e !in s && forall j, k :: 0 <= j < k < |s| ==> s[j] != s[k]
    requires h.first == (if i == 0 then e else s[0]) && h.last == NextOf(s[|s| - 1])
    requires e.next == s[i] && e.prev == (if i == 0 then FirstOf(h) else NextOf(s[i - 1]))
    requires forall k {:trigger s[k].next} :: 0 <= k < |s| - 1 ==> s[k].next == if k + 1 == i then e else s[k + 1]
    requires forall k {:trigger s[k].prev} :: 1 <= k < |s| ==> s[k].prev == NextOf(if k == i then e else s[k - 1])
    requires s[|s| - 1].next == null && s[0].prev == (if i == 0 then NextOf(e) else FirstOf(h))
    ensures IsQueue(h, s[..i] + [e] + s[i..])
  {
    var s' := s[..i] + [e] + s[i..];
    assert forall k :: 0 <= k < i ==> s'[k] == s[k];
    assert forall k :: i < k <= |s| ==> s'[k] == s[k - 1];
  }

  method Remove<T>(h: Head<T>, e: Elem<T>, ghost s: seq<Elem<T>>, ghost i: nat)
    requires IsQueue(h, s) && i < |s| && s[i] == e
    modifies h, s
    ensures IsQueue(h, s[..i] + s[i + 1..])
    ensures e.next == old(e.next) && e.prev == old(e.prev)
  {
    if e.next != null {
      e.next.prev := e.prev;
    } else {
      h.last := e.prev;
    }
    Store(e.prev, e.next);
    LinkedPast(h, s, i);
  }

  // What the links are when those around s[i] have been turned past it.
  lemma LinkedPast<T>(h: Head<T>, s: seq<Elem<T>>, i: nat)
    requires i < |s| && forall j, k :: 0 <= j < k < |s| ==> s[j] != s[k]
    requires h.first == (if i > 0 then s[0] else if |s| > 1 then s[1] else null)
    requires h.last == if i < |s| - 1 then NextOf(s[|s| - 1]) else if i > 0 then NextOf(s[i - 1]) else FirstOf(h)
    requires forall k {:trigger s[k].next} :: 0 <= k < |s| - 1 && k != i && k + 1 != i ==> s[k].next == s[k + 1]
    requires forall k {:trigger s[k].prev} :: 1 <= k < |s| && k != i && k != i + 1 ==> s[k].prev == NextOf(s[k - 1])
    requires i > 0 ==> s[i - 1].next == (if i < |s| - 1 then s[i + 1] else null) && s[0].prev == FirstOf(h)
    requires i < |s| - 1 ==> s[i + 1].prev == (if i > 0 then NextOf(s[i - 1]) else FirstOf(h)) && s[|s| - 1].next == null
    ensures IsQueue(h, s[..i] + s[i + 1..])
  {
    var s' := s[..i] + s[i + 1..];
    assert forall k :: 0 <= k < i ==> s'[k] == s[k];
    assert forall k :: i <= k < |s| - 1 ==> s'[k] == s[k + 1];
  }

  method Concat<T>(h1: Head<T>, h2: Head<T>, ghost s1: seq<Elem<T>>, ghost s2: seq<Elem<T>>)
    requires IsQueue(h1, s1) && IsQueue(h2, s2) && h1 != h2
    requires forall e :: e in s1 ==> e !in s2
    modifies h1, h2, s1, s2
    ensures IsQueue(h1, s1 + s2) && IsQueue(h2, [])
  {
    if h2.first == null {
      assert s1 + s2 == s1;
      return;
    }
    ghost var s := s1 + s2;
    DistinctConcat(s1, s2);
    Store(h1.last, h2.first);
    h2.first.prev := h1.last;
    h1.last := h2.last;
    h2.first, h2.last := null, FirstOf(h2);
    forall i | 0 <= i < |s| - 1
      ensures s[i].next == s[i + 1]
    {
      if i >= |s1| {
        assert s2[i - |s1|].next == s2[i - |s1| + 1];
      }
    }
    forall i | 1 <= i < |s|
      ensures s[i].prev == NextOf(s[i - 1])
    {
      if i > |s1| {
        assert s2[i - |s1|].prev == NextOf(s2[i - |s1| - 1]);
      }
    }
  }

  lemma DistinctConcat<T>(s1: seq<Elem<T>>, s2: seq<Elem<T>>)
    requires forall i, j :: 0 <= i < j < |s1| ==> s1[i] != s1[j]
    requires forall i, j :: 0 <= i < j < |s2| ==> s2[i] != s2[j]
    requires forall e :: e in s1 ==> e !in s2
    ensures forall i, j :: 0 <= i < j < |s1 + s2| ==> (s1 + s2)[i] != (s1 + s2)[j]
    ensures forall i, j :: 0 <= i < |s1| && 0 <= j < |s2| ==> s1[i] != s2[j]
  {
    forall i, j | 0 <= i < |s1| && 0 <= j < |s2|
      ensures s1[i] != s2[j]
    {
      assert s1[i] in s1 && s2[j] in s2;
    }
  }

  lemma QueueFront<T>(h: Head<T>, s: seq<Elem<T>>)
    requires IsQueue(h, s)
    ensures h.first == null <==> s == []
    ensures s != [] ==> h.first == s[0] && s[0].next == if |s| > 1 then s[1] else null
  {
  }

  // ---------- Traversal ----------

  // TAILQ_FOREACH
  method Foreach<T>(h: Head<T>, ghost s: seq<Elem<T>>) returns (seen: seq<Elem<T>>)
    requires IsQueue(h, s)
    ensures seen == s
  {
    seen := [];
    var e := h.first;
    while e != null
      invariant |seen| <= |s| && seen == s[..|seen|]
      invariant e == if |seen| < |s| then s[|seen|] else null
      decreases |s| - |seen|
    {
      assert e == s[|seen|];
      seen := seen + [e];
      e := e.next;
    }
  }

  // TAILQ_FOREACH_REVERSE: by LAST and PREV, the same elements the other way round.
  method ForeachReverse<T>(h: Head<T>, ghost s: seq<Elem<T>>) returns (seen: seq<Elem<T>>)
    requires IsQueue(h, s)
    ensures |seen| == |s| && forall i :: 0 <= i < |s| ==> seen[i] == s[|s| - 1 - i]
  {
    seen := [];
    LastIsLast(h, s);
    var e := Last(h);
    while e != null
      invariant |seen| <= |s| && forall i :: 0 <= i < |seen| ==> seen[i] == s[|s| - 1 - i]
      invariant e == if |seen| < |s| then s[|s| - 1 - |seen|] else null
      decreases |s| - |seen|
    {
      PrevIsPrevious(h, s, |s| - 1 - |seen|);
      seen := seen + [e];
      e := Prev(e);
    }
  }

  // TAILQ_FOREACH_SAFE: the body may remove the current element; here it removes every one.
  method RemoveAll<T>(h: Head<T>, ghost s: seq<Elem<T>>) returns (seen: seq<Elem<T>>)
    requires IsQueue(h, s)
    modifies h, s
    ensures seen == s && IsQueue(h, [])
  {
    hide IsQueue;
    seen := [];
    var e := h.first;
    assert s[0..] == s;
    QueueFront(h, s);
    while e != null
      invariant |seen| <= |s| && seen == s[..|seen|] && IsQueue(h, s[|seen|..])
      invariant e == if |seen| < |s| then s[|seen|] else null
      decreases |s| - |seen|
    {
      ghost var rest := s[|seen|..];
      QueueFront(h, rest);
      var next := e.next;
      Remove(h, e, rest, 0);
      assert rest[..0] + rest[1..] == s[|seen| + 1..];
      seen := seen + [e];
      e := next;
    }
    assert s[|seen|..] == [];
  }
}
