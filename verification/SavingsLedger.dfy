/**
 The seven-layer savings ledger of src/savings.rs. An event's buckets are a list in the order
 of the layer names.
 */
module SavingsLedger {
  import opened Saturation

  const LAYERS := 7

  datatype Bucket = Bucket(saved: nat, baseline: nat)

  type Buckets = bs: seq<Bucket> | |bs| == LAYERS witness seq(LAYERS, i => Bucket(0, 0))

  datatype SavingsByLayer = SavingsByLayer(layers: Buckets, total: Bucket)

  /** One accumulation: each side is added and clamped. */
  function Added(a: Bucket, b: Bucket): Bucket {
    Bucket(Sat(a.saved + b.saved), Sat(a.baseline + b.baseline))
  }

  function Saved(b: Bucket): nat {
    b.saved
  }

  function Baseline(b: Bucket): nat {
    b.baseline
  }

  /** One side of a list of buckets. */
  function Side(bs: seq<Bucket>, side: Bucket -> nat): (r: seq<nat>)
    ensures |r| == |bs| && forall i | 0 <= i < |r| :: r[i] == side(bs[i])
  {
    seq(|bs|, i requires 0 <= i < |bs| => side(bs[i]))
  }

  /** The clamped true sums of a list of buckets. */
  function SatTotal(bs: seq<Bucket>): Bucket {
    Bucket(Sat(Sum(Side(bs, Saved))), Sat(Sum(Side(bs, Baseline))))
  }

  /** One layer over the log. */
  function Layer(events: seq<Buckets>, k: nat): (r: seq<Bucket>)
    requires k < LAYERS
    ensures |r| == |events| && forall i | 0 <= i < |r| :: r[i] == events[i][k]
  {
    seq(|events|, i requires 0 <= i < |events| => events[i][k])
  }

  /** Every bucket of the log, event by event. */
  function AllBuckets(events: seq<Buckets>): seq<Bucket> {
    if events == [] then [] else AllBuckets(events[..|events| - 1]) + events[|events| - 1]
  }

  lemma SideConcat(a: seq<Bucket>, b: seq<Bucket>, side: Bucket -> nat)
    ensures Sum(Side(a + b, side)) == Sum(Side(a, side)) + Sum(Side(b, side))
  {
    SumConcat(Side(a, side), Side(b, side));
    assert Side(a + b, side) == Side(a, side) + Side(b, side);
  }

  lemma SumOfOne(x: nat)
    ensures Sum([x]) == x
  {
    assert [x][..0] == [];
  }

  lemma SatTotalPush(bs: seq<Bucket>, b: Bucket)
    ensures SatTotal(bs + [b]) == Added(SatTotal(bs), b)
  {
    hide Sum;
    SideConcat(bs, [b], Saved);
    SideConcat(bs, [b], Baseline);
    SumOfOne(b.saved);
    SumOfOne(b.baseline);
    assert Side([b], Saved) == [b.saved] && Side([b], Baseline) == [b.baseline];
  }

  lemma SatTotalOfNone()
    ensures SatTotal([]) == Bucket(0, 0)
  {
  }

  /** The roll-up loops: each layer over the log, then the layers into the grand total. */
  method SumByLayer(events: seq<Buckets>) returns (roll: SavingsByLayer)
    ensures forall k | 0 <= k < LAYERS :: roll.layers[k] == SatTotal(Layer(events, k))
    ensures roll.total == SatTotal(AllBuckets(events))
  {
    hide SatTotal, Added;
    SatTotalOfNone();
    var acc: Buckets := seq(LAYERS, i => Bucket(0, 0));
    for e := 0 to |events|
      invariant forall k | 0 <= k < LAYERS :: acc[k] == SatTotal(Layer(events[..e], k))
    {
      forall k | 0 <= k < LAYERS
        ensures SatTotal(Layer(events[..e + 1], k)) == Added(SatTotal(Layer(events[..e], k)), events[e][k])
      {
        assert Layer(events[..e + 1], k) == Layer(events[..e], k) + [events[e][k]];
        SatTotalPush(Layer(events[..e], k), events[e][k]);
      }
      acc := seq(LAYERS, k requires 0 <= k < LAYERS => Added(acc[k], events[e][k]));
    }
    assert events[..|events|] == events;
    var total := Bucket(0, 0);
    for k := 0 to LAYERS
      invariant total == SatTotal(acc[..k])
    {
      SatTotalPush(acc[..k], acc[k]);
      assert acc[..k + 1] == acc[..k] + [acc[k]];
      total := Added(total, acc[k]);
    }
    assert acc[..LAYERS] == acc;
    LayersRecombine(events, acc);
    roll := SavingsByLayer(acc, total);
  }

  // ----- The layers recombine to the log -----

  function LayerSums(events: seq<Buckets>, side: Bucket -> nat): (r: seq<nat>)
    ensures |r| == LAYERS && forall k | 0 <= k < LAYERS :: r[k] == Sum(Side(Layer(events, k), side))
  {
    seq(LAYERS, k requires 0 <= k < LAYERS => Sum(Side(Layer(events, k), side)))
  }

  lemma {:induction false} SumOfSums(a: seq<nat>, b: seq<nat>, c: seq<nat>)
    requires |a| == |b| == |c| && forall i | 0 <= i < |a| :: c[i] == a[i] + b[i]
    ensures Sum(c) == Sum(a) + Sum(b)
  {
    if a != [] {
      SumOfSums(a[..|a| - 1], b[..|b| - 1], c[..|c| - 1]);
    }
  }

  /** Adding up by layer and adding up by event agree. */
  lemma {:induction false} LayerSumsAddUp(events: seq<Buckets>, side: Bucket -> nat)
    ensures Sum(LayerSums(events, side)) == Sum(Side(AllBuckets(events), side))
  {
    hide Sum;
    var sums := LayerSums(events, side);
    if events == [] {
      NoBuckets(side);
      SumOfZeros(sums) by {
        forall k | 0 <= k < LAYERS
          ensures sums[k] == 0
        {
          assert Layer(events, k) == [];
          NoBuckets(side);
        }
      }
    } else {
      var init, last := events[..|events| - 1], events[|events| - 1];
      LayerSumsAddUp(init, side);
      SideConcat(AllBuckets(init), last, side);
      forall k | 0 <= k < LAYERS
        ensures sums[k] == LayerSums(init, side)[k] + Side(last, side)[k]
      {
        assert Layer(events, k) == Layer(init, k) + [last[k]];
        SideConcat(Layer(init, k), [last[k]], side);
        assert Side([last[k]], side) == [side(last[k])];
        SumOfOne(side(last[k]));
      }
      SumOfSums(LayerSums(init, side), Side(last, side), sums);
    }
  }

  lemma NoBuckets(side: Bucket -> nat)
    ensures Sum(Side([], side)) == 0
  {
  }

  /** The total of the clamped layers is the clamped total of the log. */
  lemma LayersRecombine(events: seq<Buckets>, acc: Buckets)
    requires forall k | 0 <= k < LAYERS :: acc[k] == SatTotal(Layer(events, k))
    ensures SatTotal(acc) == SatTotal(AllBuckets(events))
  {
    hide Sum, Sat;
    var saved, baseline := LayerSums(events, Saved), LayerSums(events, Baseline);
    assert Side(acc, Saved) == Sats(saved) && Side(acc, Baseline) == Sats(baseline);
    SatOfSats(saved);
    SatOfSats(baseline);
    LayerSumsAddUp(events, Saved);
    LayerSumsAddUp(events, Baseline);
  }

  lemma LayerConcat(a: seq<Buckets>, b: seq<Buckets>, k: nat, side: Bucket -> nat)
    requires k < LAYERS
    ensures Sum(Side(Layer(a + b, k), side)) == Sum(Side(Layer(a, k), side)) + Sum(Side(Layer(b, k), side))
  {
    assert Layer(a + b, k) == Layer(a, k) + Layer(b, k);
    SideConcat(Layer(a, k), Layer(b, k), side);
  }

  lemma {:induction false} LayerForgetsOrder(a: seq<Buckets>, b: seq<Buckets>, k: nat, side: Bucket -> nat)
    requires multiset(a) == multiset(b) && k < LAYERS
    ensures Sum(Side(Layer(a, k), side)) == Sum(Side(Layer(b, k), side))
  {
    hide Sum;
    if a == [] {
      assert |b| == |multiset(b)| == 0;
      assert Layer(a, k) == Layer(b, k);
    } else {
      var p := PlaceOfLast(a, b);
      var init, x := a[..|a| - 1], a[|a| - 1];
      assert a == init + [x];
      LayerForgetsOrder(init, b[..p] + b[p + 1..], k, side);
      LayerConcat(init, [x], k, side);
      LayerConcat(b[..p], [x], k, side);
      LayerConcat(b[..p] + [x], b[p + 1..], k, side);
      LayerConcat(b[..p], b[p + 1..], k, side);
    }
  }

  /** The roll-up is a function of the events as a collection: their order does not matter. */
  lemma RollUpForgetsOrder(a: seq<Buckets>, b: seq<Buckets>)
    requires multiset(a) == multiset(b)
    ensures forall k | 0 <= k < LAYERS :: SatTotal(Layer(a, k)) == SatTotal(Layer(b, k))
    ensures SatTotal(AllBuckets(a)) == SatTotal(AllBuckets(b))
  {
    hide Sum, Side, Layer, AllBuckets;
    forall k | 0 <= k < LAYERS
      ensures LayerSums(a, Saved)[k] == LayerSums(b, Saved)[k]
      ensures LayerSums(a, Baseline)[k] == LayerSums(b, Baseline)[k]
    {
      LayerForgetsOrder(a, b, k, Saved);
      LayerForgetsOrder(a, b, k, Baseline);
    }
    assert LayerSums(a, Saved) == LayerSums(b, Saved) && LayerSums(a, Baseline) == LayerSums(b, Baseline);
    LayerSumsAddUp(a, Saved);
    LayerSumsAddUp(b, Saved);
    LayerSumsAddUp(a, Baseline);
    LayerSumsAddUp(b, Baseline);
  }

  /** A bucket saves no more than its baseline. */
  predicate WellFormed(b: Bucket) {
    b.saved <= b.baseline
  }

  /** Well-formed buckets sum to a well-formed bucket, clamped or not. */
  lemma SumsStayWellFormed(bs: seq<Bucket>)
    requires forall i | 0 <= i < |bs| :: WellFormed(bs[i])
    ensures WellFormed(SatTotal(bs))
  {
    SumIsMonotone(Side(bs, Saved), Side(bs, Baseline));
  }

  /** There are seven layers. */
  lemma SevenLayers(b: Buckets)
    ensures |b| == 7
  {
  }
}
