/**
 Saturating sums (src/aggregator.rs, src/savings.rs): clamping at the largest 64-bit value
 after every addition gives the clamped true sum, in any order and under any grouping.
 */
module Saturation {
  const MAX_METRIC: nat := 0xFFFF_FFFF_FFFF_FFFF

  function Sat(n: nat): nat {
    if n > MAX_METRIC then MAX_METRIC else n
  }

  function Sum(xs: seq<nat>): nat {
    if xs == [] then 0 else Sum(xs[..|xs| - 1]) + xs[|xs| - 1]
  }

  /** The clamping loop: the clamped true sum, and a warning exactly when that is not the sum. */
  method SaturatingMetricSum(vals: seq<nat>) returns (total: nat, clamped: bool)
    ensures total == Sat(Sum(vals))
    ensures clamped <==> Sum(vals) > MAX_METRIC
  {
    total, clamped := 0, false;
    for i := 0 to |vals|
      invariant total == Sat(Sum(vals[..i]))
      invariant clamped <==> Sum(vals[..i]) > MAX_METRIC
    {
      assert vals[..i + 1][..i] == vals[..i];
      if total + vals[i] <= MAX_METRIC {
        total := total + vals[i];
      } else {
        total, clamped := MAX_METRIC, true;
      }
    }
    assert vals[..|vals|] == vals;
  }

  lemma {:induction false} SumConcat(a: seq<nat>, b: seq<nat>)
    ensures Sum(a + b) == Sum(a) + Sum(b)
  {
    if b == [] {
      assert a + b == a;
    } else {
      assert (a + b)[..|a + b| - 1] == a + b[..|b| - 1];
      SumConcat(a, b[..|b| - 1]);
    }
  }

  /** Where a permutation puts the last element, and what is left of it. */
  lemma PlaceOfLast<T>(a: seq<T>, b: seq<T>) returns (p: nat)
    requires a != [] && multiset(a) == multiset(b)
    ensures p < |b| && b == b[..p] + [a[|a| - 1]] + b[p + 1..]
    ensures multiset(b[..p] + b[p + 1..]) == multiset(a[..|a| - 1])
  {
    var init, x := a[..|a| - 1], a[|a| - 1];
    assert a == init + [x];
    assert x in multiset(b);
    p :| 0 <= p < |b| && b[p] == x;
    var rest := b[..p] + b[p + 1..];
    assert b == b[..p] + [x] + b[p + 1..];
    assert multiset(rest) == multiset(b) - multiset{x} == multiset(init) by {
      assert multiset(b) == multiset(rest) + multiset{x};
      assert multiset(a) == multiset(init) + multiset{x};
    }
  }

  /** The sum, and so the clamped sum, does not depend on the order. */
  lemma {:induction false} SumForgetsOrder(a: seq<nat>, b: seq<nat>)
    requires multiset(a) == multiset(b)
    ensures Sum(a) == Sum(b)
  {
    if a == [] {
      assert |b| == |multiset(b)| == 0;
    } else {
      var p := PlaceOfLast(a, b);
      var x := a[|a| - 1];
      SumForgetsOrder(a[..|a| - 1], b[..p] + b[p + 1..]);
      SumConcat(b[..p], [x]);
      SumConcat(b[..p] + [x], b[p + 1..]);
      SumConcat(b[..p], b[p + 1..]);
      assert Sum([x]) == x by { assert [x][..0] == []; }
    }
  }

  function Sats(xs: seq<nat>): (r: seq<nat>)
    ensures |r| == |xs| && forall i | 0 <= i < |r| :: r[i] == Sat(xs[i])
  {
    seq(|xs|, i requires 0 <= i < |xs| => Sat(xs[i]))
  }

  /** Summing clamped parts and clamping is clamping the sum of the parts. */
  lemma {:induction false} SatOfSats(parts: seq<nat>)
    ensures Sat(Sum(Sats(parts))) == Sat(Sum(parts))
    ensures Sum(Sats(parts)) <= Sum(parts)
  {
    if parts != [] {
      SatOfSats(parts[..|parts| - 1]);
      assert Sats(parts)[..|parts| - 1] == Sats(parts[..|parts| - 1]);
    }
  }

  lemma {:induction false} SumIsMonotone(a: seq<nat>, b: seq<nat>)
    requires |a| == |b| && forall i | 0 <= i < |a| :: a[i] <= b[i]
    ensures Sum(a) <= Sum(b) && Sat(Sum(a)) <= Sat(Sum(b))
  {
    if a != [] {
      SumIsMonotone(a[..|a| - 1], b[..|b| - 1]);
    }
  }

  // ----- Grouping -----

  function Total<T>(xs: seq<T>, amount: T -> nat): nat {
    if xs == [] then 0 else Total(xs[..|xs| - 1], amount) + amount(xs[|xs| - 1])
  }

  /** The amounts under one key. */
  function Under<T>(xs: seq<T>, key: T -> string, amount: T -> nat, k: string): nat {
    if xs == [] then 0
    else Under(xs[..|xs| - 1], key, amount, k) + if key(xs[|xs| - 1]) == k then amount(xs[|xs| - 1]) else 0
  }

  function Groups<T>(keys: seq<string>, xs: seq<T>, key: T -> string, amount: T -> nat): (r: seq<nat>)
    ensures |r| == |keys| && forall i | 0 <= i < |r| :: r[i] == Under(xs, key, amount, keys[i])
  {
    seq(|keys|, i requires 0 <= i < |keys| => Under(xs, key, amount, keys[i]))
  }

  predicate DistinctKeys(keys: seq<string>) {
    forall i, j | 0 <= i < j < |keys| :: keys[i] != keys[j]
  }

  lemma {:induction false} SumOfZeros(xs: seq<nat>)
    requires forall i | 0 <= i < |xs| :: xs[i] == 0
    ensures Sum(xs) == 0
  {
    if xs != [] {
      SumOfZeros(xs[..|xs| - 1]);
    }
  }

  lemma {:induction false} SumDiffers(a: seq<nat>, b: seq<nat>, p: nat, d: nat)
    requires |a| == |b| && p < |a| && a[p] + d == b[p]
    requires forall i | 0 <= i < |a| && i != p :: a[i] == b[i]
    ensures Sum(a) + d == Sum(b)
  {
    var n := |a| - 1;
    if p == n {
      assert a[..n] == b[..n];
    } else {
      SumDiffers(a[..n], b[..n], p, d);
    }
  }

  /** Distinct keys that cover the items split the total without loss or overlap. */
  lemma {:induction false} GroupsRecombine<T>(keys: seq<string>, xs: seq<T>, key: T -> string, amount: T -> nat)
    requires DistinctKeys(keys) && forall i | 0 <= i < |xs| :: key(xs[i]) in keys
    ensures Sum(Groups(keys, xs, key, amount)) == Total(xs, amount)
    decreases |xs|
  {
    var all := Groups(keys, xs, key, amount);
    if xs == [] {
      SumOfZeros(all);
    } else {
      var init, last := xs[..|xs| - 1], xs[|xs| - 1];
      GroupsRecombine(keys, init, key, amount);
      var p :| 0 <= p < |keys| && keys[p] == key(last);
      SumDiffers(Groups(keys, init, key, amount), all, p, amount(last));
    }
  }

  /** So do clamped groups, up to the clamp. */
  lemma SaturatedGroupsRecombine<T>(keys: seq<string>, xs: seq<T>, key: T -> string, amount: T -> nat)
    requires DistinctKeys(keys) && forall i | 0 <= i < |xs| :: key(xs[i]) in keys
    ensures Sat(Sum(Sats(Groups(keys, xs, key, amount)))) == Sat(Total(xs, amount))
  {
    SatOfSats(Groups(keys, xs, key, amount));
    GroupsRecombine(keys, xs, key, amount);
  }

  /** The clamp is at the largest unsigned 64-bit number. */
  lemma SatIs(n: nat)
    ensures Sat(n) == if n <= 18446744073709551615 then n else 18446744073709551615
  {
  }

  /** The places of the items that have a key and a property. */
  function Places<T>(xs: seq<T>, key: T -> string, holds: T -> bool, k: string): set<nat> {
    set i | 0 <= i < |xs| && key(xs[i]) == k && holds(xs[i])
  }

  /** A sum of ones under a key counts the items that have the key and the property. */
  lemma {:induction false} UnderCounts<T>(xs: seq<T>, key: T -> string, holds: T -> bool, amount: T -> nat, k: string)
    requires forall i | 0 <= i < |xs| :: amount(xs[i]) == if holds(xs[i]) then 1 else 0
    ensures Under(xs, key, amount, k) == |Places(xs, key, holds, k)|
  {
    if xs != [] {
      var n := |xs| - 1;
      UnderCounts(xs[..n], key, holds, amount, k);
      assert Places(xs, key, holds, k)
          == Places(xs[..n], key, holds, k) + if key(xs[n]) == k && holds(xs[n]) then {n} else {};
    }
  }
}
