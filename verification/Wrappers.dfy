module Wrappers {
  datatype Option<+T> = None | Some(value: T)
}

/** Facts about sequences that several modules use. */
module Sequences {

  function Without<T>(s: seq<T>, i: nat): (r: seq<T>)
    requires i < |s|
    ensures |r| == |s| - 1
  {
    s[..i] + s[i + 1..]
  }

  lemma WithoutMultiset<T>(s: seq<T>, i: nat)
    requires i < |s|
    ensures multiset(Without(s, i)) + multiset{s[i]} == multiset(s)
  {
    assert s == s[..i] + ([s[i]] + s[i + 1..]);
  }

  lemma Cancel<T>(a: multiset<T>, b: multiset<T>, c: multiset<T>)
    requires a + c == b + c
    ensures a == b
  {
    assert a == (a + c) - c;
    assert b == (b + c) - c;
  }

  lemma Regroup<T>(a: multiset<T>, x: multiset<T>, o: multiset<T>, y: multiset<T>, c: multiset<T>)
    requires x + o == y + c
    ensures (a + x) + o == (a + y) + c
  {
    assert (a + x) + o == a + (x + o);
    assert (a + y) + c == a + (y + c);
  }

  lemma SliceOfSlice<T>(s: seq<T>, from: nat, len: nat, i: nat, n: nat)
    requires from + len <= |s| && i + n <= len
    ensures s[from..from + len][i..i + n] == s[from + i..from + i + n]
  {
    var a, b := s[from..from + len][i..i + n], s[from + i..from + i + n];
    assert |a| == |b| && forall k :: 0 <= k < n ==> a[k] == b[k];
  }
}
