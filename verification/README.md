# Fair-price aggregator, modelled in Dafny

The `fairprice` package merges the price streams of several upstream
sources into one stream of "fair" prices for a ticker. Each source has a
snapshot, `tickerData`, that holds the last price it delivered and the last
error it reported. A goroutine aligns itself to the wall clock and then fires
once per `TickPeriod` (60 s). At each firing, `calcFairPrice` forms a weighted
average of the snapshots:

- A source counts only if it has no stored error, a parseable price, and an
  age below `priceExpirePeriod` (120 s).
- Each counting source is weighted by `1 - age/priceExpirePeriod`.
- The result is `Σ(weight·price) / Σweight`.

If no source counts, the result is the error "no valid data". The goroutine
sends each fair price, stamped with the current instant, on the price channel.
On the first error it sends the error, closes both channels and stops.

The model has six modules:

- `Wrappers`: the `Option` and `Result` types.
- `Clock`: the constants `TickPeriod` and `priceExpirePeriod` (as
  `ExpirePeriod`), in integer nanoseconds. Also Go's saturating
  `time.Time.Sub`, Go's truncating `%`, the alignment delay
  `TickPeriod - now % TickPeriod`, and the ideal firing schedule.
- `Snapshot`: the `tickerData` record with its setters `setPrice` and
  `setError` and its reader `value`. Also sequences of writes to a snapshot.
- `Averager`: `calcFairPrice`, in two forms:
  - a pure specification, `FairPrice`: the weighted mean of the samples of
    the included sources;
  - the source's loop with its three nested tests, `Accumulate`/`Visit`,
    wrapped by `CalcFairPrice`. The method is proved equal to the
    specification.
- `Aggregator`: the tick/emit/close logic of the `SubscribePriceStream`
  goroutine, as a trace of channel events over a sequence of firings.
  - Each firing is an `Observation`: the snapshots read, the instant
    `calcFairPrice` reads the clock, and the instant stamped on the result.
  - `Observe` turns the observations into `Tick` results.
  - `Run` is the event trace over those results. `TickLoop` is the loop
    itself and is proved to emit `Run`'s trace.
- `Scenarios`: worked examples with concrete prices and ages.

Things the model takes as parameters or replaces:

- Prices and weights are exact reals.
- `strconv.ParseFloat` is a `Parser` parameter, `string -> Option<real>`.
- `fmt.Sprintf("%.8f", …)` is a `Formatter` parameter, `real -> string`.
- The clock readings (`time.Now()`) are the instants carried by each
  `Observation`.

## Model

| member | source | states |
|---|---|---|
| Clock.Sub | fairprice.go:95 | `now.Sub(t)` is `now - t` when that fits in a `time.Duration`; otherwise it saturates to the nearest bound of the signed 64-bit range |
| Clock.GoRem | fairprice.go:61 | Go's `%` on the clock: the dividend is quotient times divisor plus remainder. The remainder takes the dividend's sign and is smaller than the divisor in magnitude |
| Clock.FirstDelay | fairprice.go:61 | the alignment sleep ends on a multiple of `TickPeriod`. It is positive and below two periods; it is at most one period for a non-negative clock and more than one for a negative clock that is off the grid |
| Clock.FirstDelayIsNextBoundary | fairprice.go:61 | for a non-negative clock the sleep ends on the next boundary: no shorter positive delay is aligned |
| Clock.TickTime | fairprice.go:61-65 | the k-th firing comes `k+1` whole periods after the aligned boundary, so it is on the grid and after the alignment sleep |
| Snapshot.SetPrice | fairprice.go:144-148 | `setPrice` replaces the stored price and leaves the stored error unchanged |
| Snapshot.SetError | fairprice.go:138-142 | `setError` replaces the stored error, possibly with nil, and leaves the stored price unchanged |
| Snapshot.ApplyAllAppend | fairprice.go:138-148 | applying two batches of writes in turn is applying their concatenation |
| Snapshot.LastPriceWins | fairprice.go:144-148 | after any sequence of writes, the stored price is that of the last `setPrice`, or the original price if there was none |
| Snapshot.LastErrorWins | fairprice.go:138-142 | after any sequence of writes, the stored error is that of the last `setError`, or the original error if there was none; price writes never touch it |
| Snapshot.Value | fairprice.go:132-136 | `value` returns the stored price and the stored error together: the pair is the whole snapshot, and writing it back changes nothing |
| Snapshot.ValueSeesWrites | fairprice.go:132-148 | a read after `setPrice` and `setError` returns exactly the price and the error written, in either order of the writes |
| Snapshot.ErrorIsSticky | fairprice.go:138-148 | once an error is stored, only a `setError(nil)` clears it; prices and non-nil errors leave it set |
| Averager.Weight | fairprice.go:97 | the weight is positive exactly when the age is below the expiry period. It is 1 at age 0, 0 at the expiry period, at most 1 for non-negative ages, and above 1 for a future timestamp |
| Averager.WeightDecaysLinearly | fairprice.go:97 | equal steps of age lower the weight by equal amounts, `Δage/priceExpirePeriod`, so an older price always weighs strictly less |
| Averager.Samples | fairprice.go:92-106 | the samples of the included sources number at most the sources, and every one has a positive weight |
| Averager.FairPrice | fairprice.go:107-110 | a failed fair price is always the error "no valid data" |
| Averager.Visit | fairprice.go:93-103 | the three nested tests accept a snapshot exactly when it has no error, a parseable price and an age below the expiry period. An accepted snapshot yields its parsed price and its freshness weight |
| Averager.Accumulate | fairprice.go:91-106 | after the loop, `sum` is the total of weight times price over the included sources and `sumWeight` is their total weight |
| Averager.CalcFairPrice | fairprice.go:89-111 | `calcFairPrice` equals the specification. It fails, with "no valid data", exactly when no source is included. A successful price has an included price at or below it and one at or above it |
| Averager.SamplesExistIff | fairprice.go:92-106 | there is at least one sample exactly when some source passes the three tests |
| Averager.IncludedHasSample | fairprice.go:92-103 | every included source contributes its price with its freshness weight |
| Averager.SamplesComeFromIncluded | fairprice.go:92-103 | every sample is the price and weight of some included source |
| Averager.FailsIffNoneIncluded | fairprice.go:93-108 | the zero-weight check fires, with "no valid data", exactly when no source is included, because every included weight is positive |
| Averager.MeanWithinRange | fairprice.go:101-110 | a weighted mean of positively weighted samples lies between the smallest and largest sample price |
| Averager.WithinIncludedRange | fairprice.go:93-110 | a successful fair price lies within the range of the included sources' prices |
| Averager.UniformPriceIsFixed | fairprice.go:97-110 | included sources that all quote the same price yield that price, whatever their ages |
| Averager.SingleSourceIsItsPrice | fairprice.go:93-110 | with exactly one included source, the fair price is that source's price |
| Averager.EqualWeightsGiveMean | fairprice.go:101-110 | samples that share one weight average to the plain arithmetic mean of their prices |
| Averager.EqualAgeIsMean | fairprice.go:95-110 | included sources of equal age yield the arithmetic mean of their prices |
| Averager.ExcludedSourceIsIgnored | fairprice.go:92-106 | adding a source that fails the tests leaves the fair price unchanged |
| Averager.ErroredSourceStaysExcluded | fairprice.go:93 | a source that has stored an error is excluded from every later average, however many prices it receives, until a nil error is written |
| Averager.ClearedErrorReadmits | fairprice.go:124-125 | a nil error write re-admits a source whose last price parses and is still fresh, with that price and its freshness weight |
| Averager.EmptySnapshotExcluded | fairprice.go:53 | a snapshot nothing was ever written to is excluded at any instant at least one expiry period after the zero time |
| Aggregator.Observe | fairprice.go:65-66 | each firing's tick is `calcFairPrice` of that firing's snapshots and clock reading, one for one |
| Aggregator.Served | fairprice.go:65-77 | the served count is the number of firings before the first failing one: all firings before it succeed, and the firing at it fails if there is one |
| Aggregator.Run | fairprice.go:65-78 | the trace is zero or more prices, optionally followed by exactly one error and the closing of both channels, and nothing else. It holds one price per served firing, plus three events if a firing failed |
| Aggregator.PrependPrice | fairprice.go:66-71 | sending a price ahead of a well-formed trace keeps it well formed |
| Aggregator.TickLoop | fairprice.go:65-78 | the loop emits exactly the trace `Run` defines over the ticks of its observations |
| Aggregator.RunStep | fairprice.go:66-77 | a successful firing emits its stamped price and then continues; a failing one emits the error and both closings, and then nothing more |
| Aggregator.RunPricesServed | fairprice.go:66-71 | the event of each served firing is the price stamped with that firing's instant and formatted result |
| Aggregator.RunClosesAfterServed | fairprice.go:72-77 | after the served firings come the first failure's error and the two closings, and no price |
| Aggregator.RunCharacterised | fairprice.go:65-78 | the whole trace, firing by firing: its length, the price at each served firing, then the closing sequence, and no price after it |
| Aggregator.ClosesIffSomeTickFails | fairprice.go:72-77 | the channels are closed exactly when some firing's `calcFairPrice` failed |
| Aggregator.StopsAfterFailure | fairprice.go:72-77 | once a firing has failed, later firings change nothing: the goroutine has returned |
| Aggregator.OutputOnlyGrows | fairprice.go:65-78 | more firings only extend the trace emitted so far |
| Aggregator.ClosesIffSomeTickHasNoData | fairprice.go:66-77 | the stream shuts down exactly when, at some firing, no source passes the three tests, and the error it sends is then "no valid data" |
| Aggregator.PricesSentAreInRange | fairprice.go:66-71 | while every firing so far found a usable source, the k-th event is the k-th firing's fair price, formatted and stamped with that firing's instant. The price lies within the range of the prices included at that firing |
| Aggregator.StaleFromSecondTick | fairprice.go:61-65 | a price observed no later than the subscription is at least one expiry period old from the second firing on, so it is excluded |
| Aggregator.FrozenSourcesCloseByTick2 | fairprice.go:59-77 | if every price stored at the second firing carries a timestamp no later than the goroutine's clock reading at its start, the stream shuts down at the second firing at the latest; at most one price precedes the error |
| Aggregator.LoneErroredSourceCloses | fairprice.go:66-76 | a lone source that has stored an error shuts the stream down at the next firing, whatever prices it keeps receiving |
| Scenarios.EqualAgesAverage | fairprice.go:97-110 | three fresh sources quoting 100, 102 and 98 give a fair price of 100 |
| Scenarios.MixedAgesAverage | fairprice.go:97-110 | 100 observed now and 110 observed 90 s ago (weight 0.25) give a fair price of 102 |
| Scenarios.AllStaleShutsDown | fairprice.go:95-108 | when every source is at least one expiry period old at a firing, the trace is the error "no valid data" and the two closings, whatever comes later |

## Notes on the source

- The doc comment of `calcFairPrice` (fairprice.go:84) writes the result as
  `∑(weight * price) / n`. The code divides by the total weight (line 110),
  and the model follows the code.
- `setPrice` does not clear a stored error. The error stays stored, and the
  source stays excluded, until a nil error is written
  (`Averager.ErroredSourceStaysExcluded`). A nil error does arrive once the
  upstream closes its error channel: the receive at fairprice.go:124-125
  then yields nil. A fair-price stream closes its own error channel after
  its error (fairprice.go:75), so one stream feeding another produces
  exactly this. The nil write re-admits the last price until it ages out
  (`Averager.ClearedErrorReadmits`).
- The ticker's first firing comes one whole period after the aligned
  boundary, not at the boundary (`Clock.TickTime`). As a result, a price
  timestamped no later than the goroutine's clock reading at its start is
  stale from the second firing on.
- A price stamped in the future has a negative age. It is not rejected and
  weighs more than 1 (`Averager.Weight`).
- For a negative Unix clock, Go's `%` is negative, and the alignment sleep
  exceeds one period (`Clock.FirstDelay`).
- The tick period and the expiry period are package constants. Nothing can
  configure them.

## Left out

- Goroutines, channels, `sync.RWMutex`, `time.Sleep` and `time.NewTicker`
  are concurrency plumbing. The snapshot is an immutable value. The goroutine
  is a trace over the sequence of its firings, and each firing comes with
  the instants it reads.
- `tickerData.subscribe` (fairprice.go:113-130) exists only to read channels
  concurrently. Its `break` statements leave only the `select`, so it never
  re-subscribes. Its effect on a snapshot is modelled as an arbitrary
  sequence of `setPrice`/`setError` writes (`Snapshot.Update`). That
  sequence includes the `setError(nil)` that a closed upstream error channel
  delivers (fairprice.go:124-125).
- `NewFairPrice` and the subscription of each source (fairprice.go:44-56)
  only wire goroutines together. The zero snapshot each source starts from
  is `Snapshot.Empty`.
- `strconv.ParseFloat` and `fmt.Sprintf("%.8f")` are foreign library calls.
  They are the `Parser` and `Formatter` parameters, so the emitted price is
  `format(v)` of the exact fair price `v`.
- `float64` rounding, NaN and infinities are not modelled; prices and weights
  are exact reals. A `sumWeight` that rounds to zero, or a NaN price, can
  behave differently in the source.
- `time.Ticker` drops firings when the reader is slow, and Go uses a
  monotonic clock reading. Neither is modelled: firings are an arbitrary
  sequence of observations. `Aggregator.OnSchedule` states only that a
  firing is processed no earlier than its slot.
- `time.Now().UnixNano()` overflows outside the years 1678 to 2262. It is
  modelled as an unbounded integer.
- `Averager.Accumulate`: the loop body is the helper method `Visit` rather
  than inline code. The nested tests are the same.
- The test generator (`testgenerator/generator.go`) and the entry point
  (`cmd/main.go`) are I/O, randomness and console printing, and are not part
  of this model.
