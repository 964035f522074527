/** compare_dotted_version of src/utils.c and the check_version of src/indexnodes/indexnode.c that uses it.

    A C string pointer is the text that is left, up to but not including the NUL. */
module DottedVersions {
  import opened Decimals

  const TWO_32 := 0x1_0000_0000
  const TWO_31 := 0x8000_0000
  const PROTO_MINIMUM := "0.5"
  const PROTO_MAXIMUM := "0.13"

  // The conversion of a long to an int.
  function AsInt(n: int): int {
    (n + TWO_31) % TWO_32 - TWO_31
  }

  function Skip(s: string): string {
    if s == "" then s else s[1..]
  }

  // What the loop returns from here on.  It ends on all strings, well-formed or not.
  function Compared(ver: string, cmp: string): int
    decreases |ver| + |cmp|
  {
    var ((n1, ver'), (n2, cmp')) := (Strtol(ver), Strtol(cmp));
    if AsInt(n1) < AsInt(n2) then -1
    else if AsInt(n1) > AsInt(n2) then 1
    else if ver' == "" && cmp' == "" then 0
    else Compared(Skip(ver'), Skip(cmp'))
  }

  method CompareDottedVersion(ver: string, cmp: string) returns (r: int)
    ensures r == Compared(ver, cmp)
  {
    var v, c := ver, cmp;
    while true
      invariant Compared(v, c) == Compared(ver, cmp)
      decreases |v| + |c|
    {
      var r1, r2 := Strtol(v), Strtol(c);
      var n1, n2 := AsInt(r1.0), AsInt(r2.0);
      v, c := r1.1, r2.1;
      if n1 < n2 {
        return -1;
      }
      if n1 > n2 {
        return 1;
      }
      if v == "" && c == "" {
        return 0;
      }
      if v != "" {
        v := v[1..];
      }
      if c != "" {
        c := c[1..];
      }
    }
  }

  // ---------- Versions as lists of numbers ----------

  function Text(v: seq<nat>): string {
    if v == [] then ""
    else if |v| == 1 then Decimal(v[0])
    else Decimal(v[0]) + "." + Text(v[1..])
  }

  // Components fit an int.
  predicate Version(v: seq<nat>) {
    forall i :: 0 <= i < |v| ==> v[i] < TWO_31
  }

  function First(v: seq<nat>): nat { if v == [] then 0 else v[0] }

  function Rest(v: seq<nat>): seq<nat> { if v == [] then [] else v[1..] }

  // Lexicographic order, with missing components counting as 0.
  function Order(v: seq<nat>, w: seq<nat>): int
    decreases |v| + |w|
  {
    if v == [] && w == [] then 0
    else if First(v) < First(w) then -1
    else if First(v) > First(w) then 1
    else Order(Rest(v), Rest(w))
  }

  lemma AsIntFits(n: nat)
    requires n < TWO_31
    ensures AsInt(n) == n
  {
  }

  lemma StrtolNothing()
    ensures Strtol("") == (0, "")
  {
  }

  lemma StrtolComponent(n: nat, rest: string)
    requires n < TWO_31 && (rest == "" || rest[0] == '.')
    ensures Strtol(Decimal(n) + rest) == (n, rest)
  {
    StrtolDecimal(n, rest);
  }

  lemma StrtolText(v: seq<nat>)
    requires Version(v)
    ensures Strtol(Text(v)).0 == First(v) && AsInt(First(v)) == First(v)
    ensures Skip(Strtol(Text(v)).1) == Text(Rest(v))
    ensures Strtol(Text(v)).1 == "" <==> |v| <= 1
  {
    hide Strtol, Decimal, AsInt;
    AsIntFits(First(v));
    if v == [] {
      StrtolNothing();
    } else if |v| == 1 {
      StrtolComponent(v[0], "");
      assert Decimal(v[0]) + "" == Decimal(v[0]);
    } else {
      TextParts(v);
      StrtolComponent(v[0], "." + Text(v[1..]));
    }
  }

  lemma TextParts(v: seq<nat>)
    requires |v| > 1
    ensures Text(v) == Decimal(v[0]) + ("." + Text(v[1..])) && ("." + Text(v[1..]))[1..] == Text(v[1..])
  {
    hide Decimal;
  }

  // On well-formed versions without leading zeros the loop computes that order.
  lemma {:induction false} ComparedIsOrder(v: seq<nat>, w: seq<nat>)
    requires Version(v) && Version(w)
    ensures Compared(Text(v), Text(w)) == Order(v, w)
    decreases |v| + |w|
  {
    hide Strtol, AsInt;
    StrtolText(v);
    StrtolText(w);
    if First(v) == First(w) {
      if |v| <= 1 && |w| <= 1 {
        assert Order(Rest(v), Rest(w)) == 0;
      } else {
        ComparedIsOrder(Rest(v), Rest(w));
      }
    }
  }

  lemma {:induction false} OrderAntisymmetric(v: seq<nat>, w: seq<nat>)
    ensures Order(v, w) == -Order(w, v)
    decreases |v| + |w|
  {
    if (v != [] || w != []) && First(v) == First(w) {
      OrderAntisymmetric(Rest(v), Rest(w));
    }
  }

  lemma {:induction false} OrderTransitive(u: seq<nat>, v: seq<nat>, w: seq<nat>)
    requires Order(u, v) <= 0 && Order(v, w) <= 0
    ensures Order(u, w) <= 0
    ensures Order(u, w) == 0 ==> Order(u, v) == 0 && Order(v, w) == 0
    decreases |u| + |v| + |w|
  {
    if u == [] && v == [] && w == [] {
    } else if First(u) == First(v) && First(v) == First(w) {
      OrderTransitive(Rest(u), Rest(v), Rest(w));
    } else {
      OrderZeros(v, w);
      OrderZeros(u, v);
    }
  }

  // Two versions are equal exactly when they are the same up to zeros at the end.
  lemma {:induction false} OrderZeros(v: seq<nat>, w: seq<nat>)
    ensures Order(v, w) == 0 <==>
      (forall i :: 0 <= i < |v| || 0 <= i < |w| ==> At(v, i) == At(w, i))
    decreases |v| + |w|
  {
    if v != [] || w != [] {
      OrderZeros(Rest(v), Rest(w));
      assert First(v) == At(v, 0) && First(w) == At(w, 0);
      assert forall i :: i >= 0 ==> At(Rest(v), i) == At(v, i + 1) && At(Rest(w), i) == At(w, i + 1);
      if forall i :: 0 <= i < |v| || 0 <= i < |w| ==> At(v, i) == At(w, i) {
        forall i | 0 <= i < |Rest(v)| || 0 <= i < |Rest(w)|
          ensures At(Rest(v), i) == At(Rest(w), i)
        {
          assert At(v, i + 1) == At(w, i + 1);
        }
      }
      if First(v) == First(w) && Order(Rest(v), Rest(w)) == 0 {
        forall i | 0 <= i < |v| || 0 <= i < |w|
          ensures At(v, i) == At(w, i)
        {
          if i > 0 {
            assert At(Rest(v), i - 1) == At(Rest(w), i - 1);
          }
        }
      }
    }
  }

  // The first component that differs decides, and the smaller is the earlier version.
  lemma {:induction false} OrderByFirst(v: seq<nat>, w: seq<nat>)
    ensures Order(v, w) == -1 <==> exists i: nat :: At(v, i) < At(w, i) && forall j :: 0 <= j < i ==> At(v, j) == At(w, j)
    ensures Order(v, w) == -1 || Order(v, w) == 0 || Order(v, w) == 1
    decreases |v| + |w|
  {
    if v != [] || w != [] {
      OrderByFirst(Rest(v), Rest(w));
      assert First(v) == At(v, 0) && First(w) == At(w, 0);
      assert forall i: nat :: At(Rest(v), i) == At(v, i + 1) && At(Rest(w), i) == At(w, i + 1);
      if First(v) == First(w) && Order(Rest(v), Rest(w)) == -1 {
        var i: nat :| At(Rest(v), i) < At(Rest(w), i) && forall j :: 0 <= j < i ==> At(Rest(v), j) == At(Rest(w), j);
        assert At(v, i + 1) < At(w, i + 1);
        forall j | 0 <= j < i + 1
          ensures At(v, j) == At(w, j)
        {
          if j > 0 {
            assert At(Rest(v), j - 1) == At(Rest(w), j - 1);
          }
        }
      }
      if i: nat :| At(v, i) < At(w, i) && forall j :: 0 <= j < i ==> At(v, j) == At(w, j) {
        if i > 0 {
          assert At(v, 0) == At(w, 0);
          var k := i - 1;
          assert At(Rest(v), k) < At(Rest(w), k);
          forall j | 0 <= j < k
            ensures At(Rest(v), j) == At(Rest(w), j)
          {
            assert At(v, j + 1) == At(w, j + 1);
          }
        }
      }
    }
  }

  // An int holds the number that differs from the long by a multiple of 2^32.
  lemma AsIntExactly(n: int)
    ensures -0x8000_0000 <= AsInt(n) < 0x8000_0000 && (n - AsInt(n)) % 0x1_0000_0000 == 0
    ensures AsInt(n) == n <==> -0x8000_0000 <= n < 0x8000_0000
  {
    var m := n + TWO_31;
    assert n - AsInt(n) == m - m % TWO_32 == TWO_32 * (m / TWO_32);
    assert (TWO_32 * (m / TWO_32)) % TWO_32 == 0;
  }

  function At(v: seq<nat>, i: int): nat {
    if 0 <= i < |v| then v[i] else 0
  }

  // ---------- What the version check lets through ----------

  predicate CheckVersion(version: string) {
    Compared(PROTO_MINIMUM, version) < 0 || Compared(version, PROTO_MAXIMUM) < 0
  }

  /** The check joins its two halves with "or", and the minimum is below the maximum: it accepts every
      string, well-formed or not. */
  lemma CheckVersionAcceptsAll(version: string)
    ensures CheckVersion(version)
  {
    hide Strtol;
    Limit("0.5", 5);
    Limit("0.13", 13);
    var (first, rest) := Strtol(version);
    if AsInt(first) == 0 {
      var second := AsInt(Strtol(Skip(rest)).0);
      assert 5 < second ==> Compared("5", Skip(rest)) == -1;
      assert second < 13 ==> Compared(Skip(rest), "13") == -1;
    }
  }

  // How the two limits read.
  lemma Limit(limit: string, n: nat)
    requires (limit, n) == (PROTO_MINIMUM, 5) || (limit, n) == (PROTO_MAXIMUM, 13)
    ensures Strtol(limit) == (0, "." + Decimal(n)) && Skip("." + Decimal(n)) == Decimal(n)
    ensures Strtol(Decimal(n)) == (n, "")
    ensures Decimal(5) == "5" && Decimal(13) == "13"
    ensures AsInt(0) == 0 && AsInt(n) == n
  {
    assert Decimal(0) == "0";
    assert Decimal(13) == Decimal(1) + [DigitChar(3)];
    assert limit == Decimal(0) + ("." + Decimal(n));
    StrtolComponent(0, "." + Decimal(n));
    assert Decimal(n) + "" == Decimal(n);
    StrtolComponent(n, "");
  }

  /** Leading zeros are another matter: such a component is read as octal.  It stands for its own number
      exactly when that is below 8; and an 8 or 9 ends it, and is skipped as if it were the dot. */
  lemma LeadingZeroIsOctal(digits: string, rest: string)
    requires AllDigits(digits, 8) && ValueIn(digits, 10) < TWO_31 && Stops(rest, 8)
    requires digits == "" && rest != "" ==> rest[0] != 'x' && rest[0] != 'X'
    ensures var (n, after) := Strtol("0" + digits + rest);
            && AsInt(n) == ValueIn(digits, 8) && after == rest && Skip(after) == Skip(rest)
            && (AsInt(n) == ValueIn(digits, 10) <==> ValueIn(digits, 10) < 8)
  {
    hide Strtol;
    StrtolOctal(digits, rest);
    OctalIsDecimalExactly(digits);
    AsIntFits(ValueIn(digits, 8));
  }
}
