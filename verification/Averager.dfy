/** The weighted averager `calcFairPrice` (fairprice.go:89-111). Every source
    whose snapshot holds no error, a parseable price and an age below the
    expiry period contributes its price with weight `1 - age/ExpirePeriod`;
    the fair price is the weighted mean of these samples, or the error
    "no valid data" when their weights sum to zero.
    Prices and weights are exact reals (the source uses `float64`). Parsing
    the decimal text (`strconv.ParseFloat`) is the parameter `parse`. */
module Averager {
  import opened Wrappers
  import opened Clock
  import opened Snapshot

  /** How price text is read as a number; `None` when it does not parse. */
  type Parser = string -> Option<real>

  /** A price together with the weight it enters the average with. */
  datatype Sample = Sample(price: real, weight: real)

  /** Age of a snapshot's observation at instant `now`, as Go's `now.Sub(t)`. */
  function Age(d: TickerData, now: int): int
  {
    Sub(now, d.price.time)
  }

  /** Freshness weight of an observation of the given age (fairprice.go:97):
      linear decay from 1 at age 0 to 0 at the expiry period. A timestamp in
      the future (negative age) is not rejected and weighs more than 1. */
  function Weight(age: int): (w: real)
    ensures w > 0.0 <==> age < ExpirePeriod
    ensures age == 0 ==> w == 1.0
    ensures age == ExpirePeriod ==> w == 0.0
    ensures 0 <= age ==> w <= 1.0
    ensures age < 0 ==> w > 1.0
  {
    1.0 - age as real / ExpirePeriod as real
  }

  /** The weight falls by the same amount for every equal step of age. */
  lemma WeightDecaysLinearly(a: int, b: int)
    ensures Weight(a) - Weight(b) == (b - a) as real / ExpirePeriod as real
    ensures a < b ==> Weight(a) > Weight(b)
  {
  }

  /** Whether a snapshot takes part in the average at instant `now`
      (fairprice.go:93-95). */
  predicate Included(d: TickerData, now: int, parse: Parser)
  {
    d.err.None? && parse(d.price.price).Some? && Age(d, now) < ExpirePeriod
  }

  function PriceOf(d: TickerData, parse: Parser): real
    requires parse(d.price.price).Some?
  {
    parse(d.price.price).value
  }

  predicate AnyIncluded(data: seq<TickerData>, now: int, parse: Parser)
  {
    exists i :: 0 <= i < |data| && Included(data[i], now, parse)
  }

  /** The sample an included snapshot contributes. */
  function SampleOf(d: TickerData, now: int, parse: Parser): Sample
    requires Included(d, now, parse)
  {
    Sample(PriceOf(d, parse), Weight(Age(d, now)))
  }

  predicate AllPositive(ss: seq<Sample>)
  {
    forall k :: 0 <= k < |ss| ==> ss[k].weight > 0.0
  }

  /** The sample of a snapshot if it is included, and nothing otherwise. */
  function Contribution(d: TickerData, now: int, parse: Parser): seq<Sample>
  {
    if Included(d, now, parse) then [SampleOf(d, now, parse)] else []
  }

  /** The samples of the included snapshots, in the order they are visited. */
  function Samples(data: seq<TickerData>, now: int, parse: Parser): (ss: seq<Sample>)
    ensures |ss| <= |data|
    ensures AllPositive(ss)
    decreases |data|
  {
    if |data| == 0 then []
    else Contribution(data[0], now, parse) + Samples(data[1..], now, parse)
  }

  /** `sumWeight`: the total weight of the samples (fairprice.go:102). */
  function SumWeight(ss: seq<Sample>): real
    decreases |ss|
  {
    if |ss| == 0 then 0.0 else ss[0].weight + SumWeight(ss[1..])
  }

  /** `sum`: the total of weight times price (fairprice.go:101). */
  function SumWeighted(ss: seq<Sample>): real
    decreases |ss|
  {
    if |ss| == 0 then 0.0 else ss[0].price * ss[0].weight + SumWeighted(ss[1..])
  }

  /** Plain total of the samples' prices. */
  function SumPrices(ss: seq<Sample>): real
    decreases |ss|
  {
    if |ss| == 0 then 0.0 else ss[0].price + SumPrices(ss[1..])
  }

  /** Weighted mean of samples, failing when the weights sum to zero
      (fairprice.go:107-110). */
  function Mean(ss: seq<Sample>): Result<real, Error>
  {
    var w := SumWeight(ss);
    if w == 0.0 then Failure(NoValidData) else Success(SumWeighted(ss) / w)
  }

  /** The fair price of a set of snapshots at instant `now`. */
  function FairPrice(data: seq<TickerData>, now: int, parse: Parser): (r: Result<real, Error>)
    ensures r.Failure? ==> r.error == NoValidData
  {
    Mean(Samples(data, now, parse))
  }

  /** One pass of the loop body of `calcFairPrice` (fairprice.go:92-103): the
      three nested exclusion tests on one snapshot and, when it passes them,
      its parsed price and its weight. */
  method Visit(d: TickerData, now: int, parse: Parser) returns (ok: bool, price: real, weight: real)
    ensures ok <==> Included(d, now, parse)
    ensures ok ==> Sample(price, weight) == SampleOf(d, now, parse)
  {
    ok, price, weight := false, 0.0, 0.0;
    var (tick, err) := Value(d);
    if err.None? {
      var parsed := parse(tick.price);
      if parsed.Some? {
        var dt := Sub(now, tick.time);
        if dt < ExpirePeriod {
          ok, price := true, parsed.value;
          weight := 1.0 - dt as real / ExpirePeriod as real;
        }
      }
    }
  }

  /** The loop of `calcFairPrice` (fairprice.go:91-106): one pass over the
      snapshots, adding each included one's weighted price to `sum` and its
      weight to `sumWeight`. */
  method Accumulate(data: seq<TickerData>, now: int, parse: Parser) returns (sum: real, sumWeight: real)
    ensures sum == SumWeighted(Samples(data, now, parse))
    ensures sumWeight == SumWeight(Samples(data, now, parse))
  {
    sum, sumWeight := 0.0, 0.0;
    ghost var seen: seq<Sample> := [];
    var i := 0;
    while i < |data|
      invariant 0 <= i <= |data|
      invariant seen == Samples(data[..i], now, parse)
      invariant sum == SumWeighted(seen) && sumWeight == SumWeight(seen)
    {
      VisitOneMore(data, i, now, parse);
      var ok, price, weight := Visit(data[i], now, parse);
      if ok {
        AddSample(seen, sum, sumWeight, price, weight);
        sum := sum + price * weight;
        sumWeight := sumWeight + weight;
        seen := seen + [Sample(price, weight)];
      }
      i := i + 1;
    }
    assert data[..i] == data;
  }

  /** Adding one sample to running sums that match `ss` gives sums that
      match `ss` extended by it. */
  lemma AddSample(ss: seq<Sample>, sum: real, sumWeight: real, price: real, weight: real)
    requires sum == SumWeighted(ss) && sumWeight == SumWeight(ss)
    ensures sum + price * weight == SumWeighted(ss + [Sample(price, weight)])
    ensures sumWeight + weight == SumWeight(ss + [Sample(price, weight)])
  {
    SumsAppend(ss, Sample(price, weight));
  }

  /** Visiting one more snapshot appends its contribution to the samples. */
  lemma VisitOneMore(data: seq<TickerData>, i: int, now: int, parse: Parser)
    requires 0 <= i < |data|
    ensures Included(data[i], now, parse) ==>
      Samples(data[..i + 1], now, parse) == Samples(data[..i], now, parse) + [SampleOf(data[i], now, parse)]
    ensures !Included(data[i], now, parse) ==>
      Samples(data[..i + 1], now, parse) == Samples(data[..i], now, parse)
  {
    assert data[..i + 1] == data[..i] + [data[i]];
    SamplesAppend(data[..i], data[i], now, parse);
    assert Samples(data[..i], now, parse) + [] == Samples(data[..i], now, parse);
  }

  /** Appending a snapshot appends its contribution to the samples. */
  lemma {:induction false} SamplesAppend(data: seq<TickerData>, d: TickerData, now: int, parse: Parser)
    ensures Samples(data + [d], now, parse) == Samples(data, now, parse) + Contribution(d, now, parse)
    decreases |data|
  {
    if |data| == 0 {
      assert Samples([d], now, parse) == Contribution(d, now, parse) + Samples([], now, parse);
    } else {
      assert (data + [d])[1..] == data[1..] + [d];
      SamplesAppend(data[1..], d, now, parse);
    }
  }

  /** Appending a sample adds its weight and its weighted price to the sums. */
  lemma {:induction false} SumsAppend(ss: seq<Sample>, x: Sample)
    ensures SumWeight(ss + [x]) == SumWeight(ss) + x.weight
    ensures SumWeighted(ss + [x]) == SumWeighted(ss) + x.price * x.weight
    decreases |ss|
  {
    if |ss| == 0 {
      assert [x][1..] == [];
    } else {
      assert (ss + [x])[1..] == ss[1..] + [x];
      SumsAppend(ss[1..], x);
    }
  }

  /** `calcFairPrice`: the accumulation, then "no valid data" on a zero total
      weight and the weighted mean otherwise (fairprice.go:89-111). */
  method CalcFairPrice(data: seq<TickerData>, now: int, parse: Parser) returns (r: Result<real, Error>)
    ensures r == FairPrice(data, now, parse)
    ensures r.Failure? <==> !AnyIncluded(data, now, parse)
    ensures r.Failure? ==> r.error == NoValidData
    ensures r.Success? ==>
      (exists i :: 0 <= i < |data| && Included(data[i], now, parse) && PriceOf(data[i], parse) <= r.value)
    ensures r.Success? ==>
      (exists i :: 0 <= i < |data| && Included(data[i], now, parse) && PriceOf(data[i], parse) >= r.value)
  {
    var sum, sumWeight := Accumulate(data, now, parse);
    if sumWeight == 0.0 {
      r := Failure(NoValidData);
    } else {
      r := Success(sum / sumWeight);
    }
    FailsIffNoneIncluded(data, now, parse);
    if r.Success? {
      WithinIncludedRange(data, now, parse);
    }
  }

  /** There is a sample exactly when some snapshot is included. */
  lemma {:induction false} SamplesExistIff(data: seq<TickerData>, now: int, parse: Parser)
    ensures |Samples(data, now, parse)| > 0 <==> AnyIncluded(data, now, parse)
    decreases |data|
  {
    if |data| > 0 {
      var rest := data[1..];
      SamplesExistIff(rest, now, parse);
      if AnyIncluded(rest, now, parse) {
        var i :| 0 <= i < |rest| && Included(rest[i], now, parse);
        assert data[i + 1] == rest[i];
      }
      if AnyIncluded(data, now, parse) && !Included(data[0], now, parse) {
        var i :| 0 <= i < |data| && Included(data[i], now, parse);
        assert rest[i - 1] == data[i];
      }
    }
  }

  /** `s` is the sample of one of the included snapshots. */
  predicate FromIncluded(data: seq<TickerData>, now: int, parse: Parser, s: Sample)
  {
    exists i :: 0 <= i < |data| && Included(data[i], now, parse) && s == SampleOf(data[i], now, parse)
  }

  /** Every sample is the sample of some included snapshot. */
  lemma {:induction false} SamplesComeFromIncluded(data: seq<TickerData>, now: int, parse: Parser)
    ensures forall k :: 0 <= k < |Samples(data, now, parse)| ==>
      FromIncluded(data, now, parse, Samples(data, now, parse)[k])
    decreases |data|
  {
    if |data| > 0 {
      var rest := data[1..];
      var c, ss0, ss := Contribution(data[0], now, parse), Samples(rest, now, parse), Samples(data, now, parse);
      SamplesComeFromIncluded(rest, now, parse);
      assert ss == c + ss0;
      forall k | 0 <= k < |ss| ensures FromIncluded(data, now, parse, ss[k]) {
        if k < |c| {
          assert ss[k] == SampleOf(data[0], now, parse);
        } else {
          assert ss[k] == ss0[k - |c|];
          var i :| 0 <= i < |rest| && Included(rest[i], now, parse) && ss0[k - |c|] == SampleOf(rest[i], now, parse);
          assert data[i + 1] == rest[i];
        }
      }
    }
  }

  /** Every included snapshot contributes its sample. */
  lemma {:induction false} IncludedHasSample(data: seq<TickerData>, now: int, parse: Parser, i: int)
    requires 0 <= i < |data| && Included(data[i], now, parse)
    ensures SampleOf(data[i], now, parse) in Samples(data, now, parse)
    decreases |data|
  {
    if i > 0 {
      assert data[1..][i - 1] == data[i];
      IncludedHasSample(data[1..], now, parse, i - 1);
    }
  }

  /** With positive weights, the total weight is positive exactly when there
      is a sample. */
  lemma {:induction false} SumWeightPositive(ss: seq<Sample>)
    requires AllPositive(ss)
    ensures SumWeight(ss) >= 0.0
    ensures SumWeight(ss) > 0.0 <==> |ss| > 0
    decreases |ss|
  {
    if |ss| > 0 {
      SumWeightPositive(ss[1..]);
    }
  }

  /** `calcFairPrice` fails, with "no valid data", exactly when no source
      passes the three exclusion tests. */
  lemma FailsIffNoneIncluded(data: seq<TickerData>, now: int, parse: Parser)
    ensures FairPrice(data, now, parse).Failure? <==> !AnyIncluded(data, now, parse)
    ensures FairPrice(data, now, parse).Failure? ==> FairPrice(data, now, parse).error == NoValidData
  {
    SamplesExistIff(data, now, parse);
    SumWeightPositive(Samples(data, now, parse));
  }

  /** When every sample price exceeds `b`, the weighted sum exceeds `b` times
      the total weight (strictly, once there is a sample). */
  lemma {:induction false} AboveBound(ss: seq<Sample>, b: real)
    requires AllPositive(ss)
    requires forall k :: 0 <= k < |ss| ==> ss[k].price > b
    ensures SumWeighted(ss) >= b * SumWeight(ss)
    ensures |ss| > 0 ==> SumWeighted(ss) > b * SumWeight(ss)
    decreases |ss|
  {
    if |ss| > 0 {
      var rest := ss[1..];
      AboveBound(rest, b);
      StepAbove(SumWeighted(ss), SumWeight(ss), SumWeighted(rest), SumWeight(rest), ss[0].price, ss[0].weight, b);
    }
  }

  /** When every sample price is below `b`, the weighted sum is below `b`
      times the total weight (strictly, once there is a sample). */
  lemma {:induction false} BelowBound(ss: seq<Sample>, b: real)
    requires AllPositive(ss)
    requires forall k :: 0 <= k < |ss| ==> ss[k].price < b
    ensures SumWeighted(ss) <= b * SumWeight(ss)
    ensures |ss| > 0 ==> SumWeighted(ss) < b * SumWeight(ss)
    decreases |ss|
  {
    if |ss| > 0 {
      var rest := ss[1..];
      BelowBound(rest, b);
      StepBelow(SumWeighted(ss), SumWeight(ss), SumWeighted(rest), SumWeight(rest), ss[0].price, ss[0].weight, b);
    }
  }

  /** A weighted mean of positively weighted samples lies between their
      smallest and largest price. */
  lemma MeanWithinRange(ss: seq<Sample>)
    requires AllPositive(ss)
    requires Mean(ss).Success?
    ensures exists k :: 0 <= k < |ss| && ss[k].price <= Mean(ss).value
    ensures exists k :: 0 <= k < |ss| && ss[k].price >= Mean(ss).value
  {
    SumWeightPositive(ss);
    var v := Mean(ss).value;
    DivideBack(SumWeighted(ss), SumWeight(ss));
    if forall k :: 0 <= k < |ss| ==> ss[k].price > v {
      AboveBound(ss, v);
      assert false;
    }
    if forall k :: 0 <= k < |ss| ==> ss[k].price < v {
      BelowBound(ss, v);
      assert false;
    }
  }

  /** A successful fair price lies between the smallest and the largest
      included price: some included price is at most it and some is at least it. */
  lemma WithinIncludedRange(data: seq<TickerData>, now: int, parse: Parser)
    requires FairPrice(data, now, parse).Success?
    ensures exists i :: 0 <= i < |data| && Included(data[i], now, parse)
                        && PriceOf(data[i], parse) <= FairPrice(data, now, parse).value
    ensures exists i :: 0 <= i < |data| && Included(data[i], now, parse)
                        && PriceOf(data[i], parse) >= FairPrice(data, now, parse).value
  {
    var ss := Samples(data, now, parse);
    MeanWithinRange(ss);
    SamplesComeFromIncluded(data, now, parse);
    var lo :| 0 <= lo < |ss| && ss[lo].price <= Mean(ss).value;
    var hi :| 0 <= hi < |ss| && ss[hi].price >= Mean(ss).value;
    assert FromIncluded(data, now, parse, ss[lo]) && FromIncluded(data, now, parse, ss[hi]);
    var i :| 0 <= i < |data| && Included(data[i], now, parse) && ss[lo] == SampleOf(data[i], now, parse);
    var j :| 0 <= j < |data| && Included(data[j], now, parse) && ss[hi] == SampleOf(data[j], now, parse);
  }

  /** When all sample prices equal `c`, the weighted sum is `c` times the
      total weight. */
  lemma {:induction false} UniformSums(ss: seq<Sample>, c: real)
    requires forall k :: 0 <= k < |ss| ==> ss[k].price == c
    ensures SumWeighted(ss) == c * SumWeight(ss)
    decreases |ss|
  {
    if |ss| > 0 {
      UniformSums(ss[1..], c);
      Distribute(c, ss[0].weight, SumWeight(ss[1..]));
    }
  }

  /** Samples that agree on the price average to that price. */
  lemma UniformMean(ss: seq<Sample>, c: real)
    requires |ss| > 0 && AllPositive(ss)
    requires forall k :: 0 <= k < |ss| ==> ss[k].price == c
    ensures Mean(ss) == Success(c)
  {
    SumWeightPositive(ss);
    UniformSums(ss, c);
    Quotient(SumWeighted(ss), SumWeight(ss), c);
  }

  /** Sources that agree on the price yield that price, whatever their ages. */
  lemma UniformPriceIsFixed(data: seq<TickerData>, now: int, parse: Parser, c: real)
    requires AnyIncluded(data, now, parse)
    requires forall i :: 0 <= i < |data| && Included(data[i], now, parse) ==> PriceOf(data[i], parse) == c
    ensures FairPrice(data, now, parse) == Success(c)
  {
    var ss := Samples(data, now, parse);
    SamplesExistIff(data, now, parse);
    SamplesComeFromIncluded(data, now, parse);
    forall k | 0 <= k < |ss| ensures ss[k].price == c {
      assert FromIncluded(data, now, parse, ss[k]);
    }
    UniformMean(ss, c);
  }

  /** With exactly one included source the fair price is that source's price. */
  lemma SingleSourceIsItsPrice(data: seq<TickerData>, now: int, parse: Parser, k: int)
    requires 0 <= k < |data| && Included(data[k], now, parse)
    requires forall i :: 0 <= i < |data| && i != k ==> !Included(data[i], now, parse)
    ensures FairPrice(data, now, parse) == Success(PriceOf(data[k], parse))
  {
    UniformPriceIsFixed(data, now, parse, PriceOf(data[k], parse));
  }

  /** When all samples share one weight `w`, each sum is `w` times the
      unweighted one. */
  lemma {:induction false} EqualWeightSums(ss: seq<Sample>, w: real)
    requires forall k :: 0 <= k < |ss| ==> ss[k].weight == w
    ensures SumWeight(ss) == w * |ss| as real
    ensures SumWeighted(ss) == w * SumPrices(ss)
    decreases |ss|
  {
    if |ss| > 0 {
      var rest := ss[1..];
      EqualWeightSums(rest, w);
      Distribute(w, 1.0, |rest| as real);
      Distribute(w, ss[0].price, SumPrices(rest));
    }
  }

  /** Equally weighted samples average to the plain mean of their prices. */
  lemma EqualWeightsGiveMean(ss: seq<Sample>)
    requires |ss| > 0 && AllPositive(ss)
    requires forall k :: 0 <= k < |ss| ==> ss[k].weight == ss[0].weight
    ensures Mean(ss) == Success(SumPrices(ss) / |ss| as real)
  {
    var w, n, p := ss[0].weight, |ss| as real, SumPrices(ss);
    var v := p / n;
    EqualWeightSums(ss, w);
    DivideBack(p, n);
    MeanOfScaled(ss, w, p, n, v);
  }

  /** When both sums carry the same positive factor `w`, the mean is what
      remains of the weighted sum per unit of what remains of the weight. */
  lemma MeanOfScaled(ss: seq<Sample>, w: real, p: real, n: real, v: real)
    requires w > 0.0 && n > 0.0 && v * n == p
    requires SumWeight(ss) == w * n && SumWeighted(ss) == w * p
    ensures Mean(ss) == Success(v)
  {
    CommonFactor(SumWeighted(ss), SumWeight(ss), w, p, n, v);
  }

  /** Sources of equal age all enter with the same weight. */
  lemma SamplesShareWeight(data: seq<TickerData>, now: int, parse: Parser, a: int)
    requires forall i :: 0 <= i < |data| && Included(data[i], now, parse) ==> Age(data[i], now) == a
    ensures forall k :: 0 <= k < |Samples(data, now, parse)| ==>
      Samples(data, now, parse)[k].weight == Samples(data, now, parse)[0].weight
  {
    var ss := Samples(data, now, parse);
    SamplesComeFromIncluded(data, now, parse);
    forall k | 0 <= k < |ss| ensures ss[k].weight == ss[0].weight {
      assert FromIncluded(data, now, parse, ss[k]);
      assert FromIncluded(data, now, parse, ss[0]);
    }
  }

  /** Sources of equal age yield the arithmetic mean of their prices. */
  lemma EqualAgeIsMean(data: seq<TickerData>, now: int, parse: Parser, a: int)
    requires AnyIncluded(data, now, parse)
    requires forall i :: 0 <= i < |data| && Included(data[i], now, parse) ==> Age(data[i], now) == a
    ensures |Samples(data, now, parse)| > 0
    ensures FairPrice(data, now, parse)
            == Success(SumPrices(Samples(data, now, parse)) / |Samples(data, now, parse)| as real)
  {
    SamplesExistIff(data, now, parse);
    SamplesShareWeight(data, now, parse, a);
    EqualWeightsGiveMean(Samples(data, now, parse));
  }

  /** A source that fails the exclusion tests changes nothing. */
  lemma ExcludedSourceIsIgnored(data: seq<TickerData>, d: TickerData, now: int, parse: Parser)
    requires !Included(d, now, parse)
    ensures FairPrice(data + [d], now, parse) == FairPrice(data, now, parse)
  {
    SamplesAppend(data, d, now, parse);
    assert Samples(data, now, parse) + [] == Samples(data, now, parse);
  }

  /** A source that has stored an error stays out of every later average
      however many prices it delivers, until a nil error is written. */
  lemma ErroredSourceStaysExcluded(d: TickerData, us: seq<Update>, now: int, parse: Parser)
    requires d.err.Some?
    requires forall i :: 0 <= i < |us| ==> us[i] != ErrorUpdate(None)
    ensures !Included(ApplyAll(d, us), now, parse)
  {
    ErrorIsSticky(d, us);
  }

  /** A nil error write (what a receive from a closed upstream error channel
      delivers, fairprice.go:124-125) re-admits a source whose last price
      parses and is still fresh. */
  lemma ClearedErrorReadmits(d: TickerData, now: int, parse: Parser)
    requires parse(d.price.price).Some? && Age(d, now) < ExpirePeriod
    ensures Included(ApplyAll(d, [ErrorUpdate(None)]), now, parse)
    ensures SampleOf(ApplyAll(d, [ErrorUpdate(None)]), now, parse) == Sample(PriceOf(d, parse), Weight(Age(d, now)))
  {
    assert [ErrorUpdate(None)][1..] == [];
  }

  /** A source that never received an observation is excluded: its zero
      timestamp makes it older than the expiry period at any real instant. */
  lemma EmptySnapshotExcluded(now: int, parse: Parser)
    requires now >= ZeroTime + ExpirePeriod
    ensures !Included(Empty, now, parse)
  {
  }

  // Real-arithmetic steps, kept apart so that the solver sees them without
  // the surrounding definitions.

  lemma StepAbove(s: real, w: real, s0: real, w0: real, p: real, wl: real, b: real)
    requires s == s0 + p * wl && w == w0 + wl
    requires s0 >= b * w0 && wl > 0.0 && p > b
    ensures s > b * w
  {
    assert (p - b) * wl > 0.0;
  }

  lemma StepBelow(s: real, w: real, s0: real, w0: real, p: real, wl: real, b: real)
    requires s == s0 + p * wl && w == w0 + wl
    requires s0 <= b * w0 && wl > 0.0 && p < b
    ensures s < b * w
  {
    assert (b - p) * wl > 0.0;
  }

  lemma Quotient(s: real, w: real, c: real)
    requires w != 0.0 && s == c * w
    ensures s / w == c
  {
  }

  lemma DivideBack(s: real, w: real)
    requires w != 0.0
    ensures s == (s / w) * w
  {
  }

  lemma Distribute(w: real, x: real, y: real)
    ensures w * (x + y) == w * x + y * w
  {
  }

  lemma CommonFactor(s: real, t: real, w: real, p: real, n: real, v: real)
    requires s == w * p && t == w * n && w > 0.0 && n > 0.0 && v * n == p
    ensures t != 0.0
    ensures s / t == v
  {
    assert w * n > 0.0;
    assert s == v * t;
  }

}
