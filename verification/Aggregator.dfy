/** The aggregating goroutine of `SubscribePriceStream` (fairprice.go:58-79).
    After aligning itself to a tick boundary it waits for its ticker; at each
    firing it computes the fair price of the current snapshots and either
    sends it on the price channel, or, when there is no valid data, sends the
    error, closes both channels and stops for good.

    The goroutine is modelled by what it observes and what it emits: one
    `Observation` per firing of the ticker (the snapshots it reads, the
    instant `calcFairPrice` reads the clock, the instant stamped on the
    result), the `Tick` result `calcFairPrice` makes of it, and the sequence
    of `Event`s a consumer of the two channels sees. */
module Aggregator {
  import opened Wrappers
  import opened Clock
  import opened Snapshot
  import opened Averager

  /** How a fair price is written as decimal text (`%.8f` in the source). */
  type Formatter = real -> string

  /** What the goroutine reads at one firing of its ticker. */
  datatype Observation = Observation(data: seq<TickerData>, calcAt: int, stampAt: int)

  /** The outcome of one firing: the result of `calcFairPrice` and the
      instant stamped on the price record. */
  datatype Tick = Tick(result: Result<real, Error>, stampAt: int)

  /** What a consumer of the price and error channels sees, in order. */
  datatype Event =
    | PriceSent(price: TickerPrice)
    | ErrorSent(error: Error)
    | PriceClosed
    | ErrorClosed

  /** The tick an observation gives (fairprice.go:66). */
  function Calc(o: Observation, parse: Parser): Tick
  {
    Tick(FairPrice(o.data, o.calcAt, parse), o.stampAt)
  }

  /** The ticks a sequence of observations gives, one for one. */
  function Observe(obs: seq<Observation>, parse: Parser): (ticks: seq<Tick>)
    ensures |ticks| == |obs|
    ensures forall k :: 0 <= k < |obs| ==> ticks[k] == Calc(obs[k], parse)
    decreases |obs|
  {
    if |obs| == 0 then [] else [Calc(obs[0], parse)] + Observe(obs[1..], parse)
  }

  predicate Fails(t: Tick)
  {
    t.result.Failure?
  }

  /** The record sent on the price channel (fairprice.go:67-71). */
  function Stamp(ticker: string, t: Tick, format: Formatter): TickerPrice
    requires t.result.Success?
  {
    TickerPrice(ticker, t.stampAt, format(t.result.value))
  }

  /** The terminal sequence (fairprice.go:73-76): the error, then both
      channels closed. */
  function Closing(e: Error): seq<Event>
  {
    [ErrorSent(e), PriceClosed, ErrorClosed]
  }

  predicate AllPrices(out: seq<Event>)
  {
    forall i :: 0 <= i < |out| ==> out[i].PriceSent?
  }

  /** The stream has been shut down. */
  predicate Closed(out: seq<Event>)
  {
    |out| > 0 && out[|out| - 1] == ErrorClosed
  }

  /** The only shapes the output can take: prices only, or prices followed by
      exactly one error and the two closings. */
  predicate WellFormed(out: seq<Event>)
  {
    || AllPrices(out)
    || (&& |out| >= 3
        && AllPrices(out[..|out| - 3])
        && out[|out| - 3].ErrorSent?
        && out[|out| - 2..] == [PriceClosed, ErrorClosed])
  }

  /** How many ticks are served before the first failing one. */
  function Served(ticks: seq<Tick>): (n: nat)
    ensures n <= |ticks|
    ensures forall k :: 0 <= k < n ==> !Fails(ticks[k])
    ensures n < |ticks| ==> Fails(ticks[n])
    decreases |ticks|
  {
    if |ticks| == 0 || Fails(ticks[0]) then 0
    else 1 + Served(ticks[1..])
  }

  /** The events emitted over the ticks `ticks`, in order. An empty `ticks`
      is a goroutine still waiting for its next firing. */
  function Run(ticker: string, ticks: seq<Tick>, format: Formatter): (out: seq<Event>)
    ensures WellFormed(out)
    ensures var n := Served(ticks); |out| == (if n < |ticks| then n + 3 else n)
    decreases |ticks|
  {
    if |ticks| == 0 then []
    else if Fails(ticks[0]) then Closing(ticks[0].result.error)
    else
      var rest := Run(ticker, ticks[1..], format);
      PrependPrice(Stamp(ticker, ticks[0], format), rest);
      [PriceSent(Stamp(ticker, ticks[0], format))] + rest
  }

  /** A price sent ahead of a well-formed output keeps it well formed. */
  lemma PrependPrice(p: TickerPrice, out: seq<Event>)
    requires WellFormed(out)
    ensures WellFormed([PriceSent(p)] + out)
  {
    var out' := [PriceSent(p)] + out;
    assert out'[1..] == out;
    if !AllPrices(out) {
      assert out'[..|out'| - 3] == [PriceSent(p)] + out[..|out| - 3];
    }
  }

  /** The goroutine's loop (fairprice.go:65-78): at each firing compute the
      fair price; send it, or send the error, close both channels and
      return. */
  method TickLoop(ticker: string, obs: seq<Observation>, parse: Parser, format: Formatter) returns (out: seq<Event>)
    ensures out == Run(ticker, Observe(obs, parse), format)
  {
    ghost var ticks := Observe(obs, parse);
    out := [];
    var i := 0;
    while i < |obs|
      invariant 0 <= i <= |obs|
      invariant out + Run(ticker, ticks[i..], format) == Run(ticker, ticks, format)
    {
      var o := obs[i];
      var r := CalcFairPrice(o.data, o.calcAt, parse);
      assert r == ticks[i].result;
      RunStep(ticker, ticks, i, format);
      if r.Success? {
        var e := PriceSent(TickerPrice(ticker, o.stampAt, format(r.value)));
        Regroup(out, [e], Run(ticker, ticks[i + 1..], format));
        out := out + [e];
      } else {
        out := out + [ErrorSent(r.error), PriceClosed, ErrorClosed];
        assert out == Run(ticker, ticks, format);
        return;
      }
      i := i + 1;
    }
    assert out + [] == out;
  }

  /** Appending one step to the emitted prefix (a fact about `+` on
      sequences). */
  lemma Regroup(out: seq<Event>, step: seq<Event>, rest: seq<Event>)
    ensures out + (step + rest) == (out + step) + rest
  {
  }

  /** What the loop does with the tick at position `i`. */
  lemma RunStep(ticker: string, ticks: seq<Tick>, i: int, format: Formatter)
    requires 0 <= i < |ticks|
    ensures !Fails(ticks[i]) ==>
      Run(ticker, ticks[i..], format)
      == [PriceSent(Stamp(ticker, ticks[i], format))] + Run(ticker, ticks[i + 1..], format)
    ensures Fails(ticks[i]) ==> Run(ticker, ticks[i..], format) == Closing(ticks[i].result.error)
  {
    assert ticks[i..][0] == ticks[i];
    assert ticks[i..][1..] == ticks[i + 1..];
  }

  /** The event of each served tick is that tick's price record. */
  lemma {:induction false} RunPricesServed(ticker: string, ticks: seq<Tick>, format: Formatter)
    ensures var out, n := Run(ticker, ticks, format), Served(ticks);
      forall k :: 0 <= k < n ==> out[k] == PriceSent(Stamp(ticker, ticks[k], format))
    decreases |ticks|
  {
    if |ticks| > 0 && !Fails(ticks[0]) {
      var rest := ticks[1..];
      RunPricesServed(ticker, rest, format);
      var out, n := Run(ticker, ticks, format), Served(ticks);
      var out' := Run(ticker, rest, format);
      forall k | 0 <= k < n ensures out[k] == PriceSent(Stamp(ticker, ticks[k], format)) {
        if k > 0 {
          assert out[k] == out'[k - 1] && rest[k - 1] == ticks[k];
        }
      }
    }
  }

  /** After the served ticks come the error of the first failing tick and
      the two closings, and no price. */
  lemma {:induction false} RunClosesAfterServed(ticker: string, ticks: seq<Tick>, format: Formatter)
    ensures var out, n := Run(ticker, ticks, format), Served(ticks);
      && (n < |ticks| ==> out[n..] == Closing(ticks[n].result.error))
      && (forall k :: n <= k < |out| ==> !out[k].PriceSent?)
    decreases |ticks|
  {
    if |ticks| > 0 && !Fails(ticks[0]) {
      var rest := ticks[1..];
      RunClosesAfterServed(ticker, rest, format);
      var out, n := Run(ticker, ticks, format), Served(ticks);
      var out', n' := Run(ticker, rest, format), Served(rest);
      assert n == n' + 1;
      if n < |ticks| {
        assert out[n..] == out'[n'..];
        assert rest[n'] == ticks[n];
      }
      forall k | n <= k < |out| ensures !out[k].PriceSent? {
        assert out[k] == out'[k - 1];
      }
    }
  }

  /** The output tick by tick: one price per served tick, then the closing
      sequence if a tick failed, and nothing else. */
  lemma {:induction false} RunCharacterised(ticker: string, ticks: seq<Tick>, format: Formatter)
    ensures var out, n := Run(ticker, ticks, format), Served(ticks);
      && |out| == (if n < |ticks| then n + 3 else n)
      && (forall k :: 0 <= k < n ==> out[k] == PriceSent(Stamp(ticker, ticks[k], format)))
      && (n < |ticks| ==> out[n..] == Closing(ticks[n].result.error))
      && (forall k :: n <= k < |out| ==> !out[k].PriceSent?)
  {
    RunPricesServed(ticker, ticks, format);
    RunClosesAfterServed(ticker, ticks, format);
  }

  /** The stream is shut down exactly when some tick fails. */
  lemma {:induction false} ClosesIffSomeTickFails(ticker: string, ticks: seq<Tick>, format: Formatter)
    ensures Closed(Run(ticker, ticks, format)) <==> exists k :: 0 <= k < |ticks| && Fails(ticks[k])
    decreases |ticks|
  {
    if |ticks| > 0 && !Fails(ticks[0]) {
      var rest := ticks[1..];
      ClosesIffSomeTickFails(ticker, rest, format);
      var out := Run(ticker, ticks, format);
      assert out[1..] == Run(ticker, rest, format);
      if exists k :: 0 <= k < |rest| && Fails(rest[k]) {
        var k :| 0 <= k < |rest| && Fails(rest[k]);
        assert ticks[k + 1] == rest[k];
      }
      if exists k :: 0 <= k < |ticks| && Fails(ticks[k]) {
        var k :| 0 <= k < |ticks| && Fails(ticks[k]);
        assert rest[k - 1] == ticks[k];
      }
    }
  }

  /** After the first failure the goroutine has returned: later ticks, and
      whatever the sources report by then, change nothing. */
  lemma {:induction false} StopsAfterFailure(ticker: string, ticks: seq<Tick>, more: seq<Tick>, format: Formatter)
    requires exists k :: 0 <= k < |ticks| && Fails(ticks[k])
    ensures Run(ticker, ticks + more, format) == Run(ticker, ticks, format)
    decreases |ticks|
  {
    assert (ticks + more)[0] == ticks[0];
    if !Fails(ticks[0]) {
      var k :| 0 <= k < |ticks| && Fails(ticks[k]);
      assert ticks[1..][k - 1] == ticks[k];
      assert (ticks + more)[1..] == ticks[1..] + more;
      StopsAfterFailure(ticker, ticks[1..], more, format);
    }
  }

  /** Later ticks only ever extend what was already emitted. */
  lemma {:induction false} OutputOnlyGrows(ticker: string, ticks: seq<Tick>, more: seq<Tick>, format: Formatter)
    ensures Run(ticker, ticks, format) <= Run(ticker, ticks + more, format)
    decreases |ticks|
  {
    if |ticks| > 0 {
      assert (ticks + more)[0] == ticks[0];
      assert (ticks + more)[1..] == ticks[1..] + more;
      OutputOnlyGrows(ticker, ticks[1..], more, format);
    }
  }

  /** Over real observations the stream is shut down exactly when, at some
      firing, no source had a usable price (no stored error, a parseable
      price and an age below the expiry period), and the error it reports
      is then "no valid data". */
  lemma ClosesIffSomeTickHasNoData(ticker: string, obs: seq<Observation>, parse: Parser, format: Formatter)
    ensures var out := Run(ticker, Observe(obs, parse), format);
      && (Closed(out) <==> exists k :: 0 <= k < |obs| && !AnyIncluded(obs[k].data, obs[k].calcAt, parse))
      && (Closed(out) ==> out[|out| - 3] == ErrorSent(NoValidData))
  {
    var ticks := Observe(obs, parse);
    ClosesIffSomeTickFails(ticker, ticks, format);
    RunCharacterised(ticker, ticks, format);
    if exists k :: 0 <= k < |ticks| && Fails(ticks[k]) {
      var k :| 0 <= k < |ticks| && Fails(ticks[k]);
      FailsIffNoneIncluded(obs[k].data, obs[k].calcAt, parse);
    }
    if exists k :: 0 <= k < |obs| && !AnyIncluded(obs[k].data, obs[k].calcAt, parse) {
      var k :| 0 <= k < |obs| && !AnyIncluded(obs[k].data, obs[k].calcAt, parse);
      FailsIffNoneIncluded(obs[k].data, obs[k].calcAt, parse);
    }
    var out, n := Run(ticker, ticks, format), Served(ticks);
    if Closed(out) {
      assert n < |ticks|;
      assert out[|out| - 3] == out[n..][0];
    }
  }

  /** While every firing so far found a usable source, the k-th event is
      the price of the k-th firing: its formatted fair price, stamped with
      its instant, and lying between the smallest and the largest price of
      the sources included at that firing. */
  lemma PricesSentAreInRange(ticker: string, obs: seq<Observation>, parse: Parser, format: Formatter, k: int)
    requires 0 <= k < |obs|
    requires forall j :: 0 <= j <= k ==> AnyIncluded(obs[j].data, obs[j].calcAt, parse)
    ensures FairPrice(obs[k].data, obs[k].calcAt, parse).Success?
    ensures var o, v := obs[k], FairPrice(obs[k].data, obs[k].calcAt, parse).value;
      && k < |Run(ticker, Observe(obs, parse), format)|
      && Run(ticker, Observe(obs, parse), format)[k] == PriceSent(TickerPrice(ticker, o.stampAt, format(v)))
      && (exists i :: 0 <= i < |o.data| && Included(o.data[i], o.calcAt, parse) && PriceOf(o.data[i], parse) <= v)
      && (exists i :: 0 <= i < |o.data| && Included(o.data[i], o.calcAt, parse) && PriceOf(o.data[i], parse) >= v)
  {
    var ticks := Observe(obs, parse);
    var n := Served(ticks);
    if n <= k {
      FailsIffNoneIncluded(obs[n].data, obs[n].calcAt, parse);
      assert false;
    }
    FailsIffNoneIncluded(obs[k].data, obs[k].calcAt, parse);
    RunCharacterised(ticker, ticks, format);
    WithinIncludedRange(obs[k].data, obs[k].calcAt, parse);
  }

  /** An observation made no later than the goroutine's start, and never
      refreshed, is past the expiry period from the second firing of the
      ticker on: the first firing comes a full period after the aligned
      boundary, so the second is more than two periods after the start. */
  lemma StaleFromSecondTick(d: TickerData, start: int, k: nat, calcAt: int, parse: Parser)
    requires d.price.time <= start
    requires k >= 1 && calcAt >= TickTime(start, k)
    ensures Age(d, calcAt) >= ExpirePeriod
    ensures !Included(d, calcAt, parse)
  {
    assert calcAt - d.price.time >= (k + 1) * TickPeriod;
  }

  /** Whether each firing is processed no earlier than the ticker's k-th
      scheduled firing after `start` (a slow reader only ever delays it). */
  predicate OnSchedule(obs: seq<Observation>, start: int)
  {
    forall k :: 0 <= k < |obs| ==> obs[k].calcAt >= TickTime(start, k)
  }

  /** If every price stored at the second firing carries a timestamp no later
      than the goroutine's clock reading at its start, the stream is shut down
      by the second firing at the latest: at most one price is sent before the
      error. */
  lemma FrozenSourcesCloseByTick2(ticker: string, obs: seq<Observation>, start: int, parse: Parser, format: Formatter)
    requires |obs| >= 2 && OnSchedule(obs, start)
    requires forall i :: 0 <= i < |obs[1].data| ==> obs[1].data[i].price.time <= start
    ensures Closed(Run(ticker, Observe(obs, parse), format))
    ensures |Run(ticker, Observe(obs, parse), format)| <= 4
  {
    var o := obs[1];
    forall i | 0 <= i < |o.data| ensures !Included(o.data[i], o.calcAt, parse) {
      StaleFromSecondTick(o.data[i], start, 1, o.calcAt, parse);
    }
    FailsIffNoneIncluded(o.data, o.calcAt, parse);
    var ticks := Observe(obs, parse);
    assert Fails(ticks[1]);
    ClosesIffSomeTickFails(ticker, ticks, format);
  }

  /** A lone source that has stored a feed error, and receives no
      `setError(nil)` afterwards, shuts the stream down at the next firing,
      whatever prices it still receives. */
  lemma LoneErroredSourceCloses(ticker: string, d: TickerData, us: seq<Update>, calcAt: int, stampAt: int,
                                more: seq<Observation>, parse: Parser, format: Formatter)
    requires d.err.Some?
    requires forall i :: 0 <= i < |us| ==> us[i] != ErrorUpdate(None)
    ensures Run(ticker, Observe([Observation([ApplyAll(d, us)], calcAt, stampAt)] + more, parse), format)
            == Closing(NoValidData)
  {
    var o := Observation([ApplyAll(d, us)], calcAt, stampAt);
    ErroredSourceStaysExcluded(d, us, calcAt, parse);
    FailsIffNoneIncluded(o.data, calcAt, parse);
    var ticks := Observe([o] + more, parse);
    assert ([o] + more)[0] == o;
    assert Fails(ticks[0]);
  }
}
