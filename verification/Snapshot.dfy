/** The per-source snapshot `tickerData` (fairprice.go:36-40): the last price
    observation received from one upstream source and the last error it
    reported. The two fields are written by independent setters; the lock that
    guards them is concurrency plumbing and is not part of this model, so a
    snapshot is an immutable value and each setter returns the new value. */
module Snapshot {
  import opened Wrappers
  import opened Clock

  /** An observation `TickerPrice` (fairprice.go:22-26): instrument, instant
      (nanoseconds since the Unix epoch) and the price as decimal text. */
  datatype TickerPrice = TickerPrice(ticker: string, time: int, price: string)

  /** A Go `error` value; a nil error is `None` of `Option<Error>`. Go
      compares errors by identity, so the aggregator's own `errors.New("no
      valid data")` (fairprice.go:108) is a value of its own, apart from
      whatever errors the upstream feeds report. */
  datatype Error = NoValidData | FeedError(message: string)

  datatype TickerData = TickerData(price: TickerPrice, err: Option<Error>)

  /** The zero `tickerData{}` each source starts from (fairprice.go:53). */
  const Empty: TickerData := TickerData(TickerPrice("", ZeroTime, ""), None)

  /** `setPrice`: replaces the stored observation and keeps the stored error. */
  function SetPrice(d: TickerData, p: TickerPrice): (r: TickerData)
    ensures r.price == p
    ensures r.err == d.err
  {
    d.(price := p)
  }

  /** `setError`: replaces the stored error (possibly by nil) and keeps the
      stored observation. */
  function SetError(d: TickerData, e: Option<Error>): (r: TickerData)
    ensures r.err == e
    ensures r.price == d.price
  {
    d.(err := e)
  }

  /** `value`: the atomic read of both fields. The read is complete (the pair
      read is the whole snapshot) and writing back what was read changes
      nothing. */
  function Value(d: TickerData): (r: (TickerPrice, Option<Error>))
    ensures TickerData(r.0, r.1) == d
    ensures SetPrice(d, r.0) == d && SetError(d, r.1) == d
  {
    (d.price, d.err)
  }

  /** A read after the two setters sees exactly what they wrote, in either
      order of the writes. */
  lemma ValueSeesWrites(d: TickerData, p: TickerPrice, e: Option<Error>)
    ensures Value(SetError(SetPrice(d, p), e)) == (p, e)
    ensures Value(SetPrice(SetError(d, e), p)) == (p, e)
  {
  }

  /** One write a source's worker performs on its snapshot. */
  datatype Update = PriceUpdate(p: TickerPrice) | ErrorUpdate(e: Option<Error>)

  function Apply(d: TickerData, u: Update): TickerData
  {
    match u
    case PriceUpdate(p) => SetPrice(d, p)
    case ErrorUpdate(e) => SetError(d, e)
  }

  /** The snapshot after a sequence of writes, in order. */
  function ApplyAll(d: TickerData, us: seq<Update>): TickerData
    decreases |us|
  {
    if |us| == 0 then d else ApplyAll(Apply(d, us[0]), us[1..])
  }

  /** Writing a sequence of updates one after the other is writing their
      concatenation. */
  lemma {:induction false} ApplyAllAppend(d: TickerData, us: seq<Update>, vs: seq<Update>)
    ensures ApplyAll(d, us + vs) == ApplyAll(ApplyAll(d, us), vs)
    decreases |us|
  {
    if |us| == 0 {
      assert us + vs == vs;
    } else {
      assert (us + vs)[1..] == us[1..] + vs;
      ApplyAllAppend(Apply(d, us[0]), us[1..], vs);
    }
  }

  /** The stored observation is the one of the last price write, or the
      original one when there was no price write at all. */
  lemma {:induction false} LastPriceWins(d: TickerData, us: seq<Update>)
    ensures (forall i :: 0 <= i < |us| ==> !us[i].PriceUpdate?) ==> ApplyAll(d, us).price == d.price
    ensures forall k :: 0 <= k < |us| && us[k].PriceUpdate? && (forall j :: k < j < |us| ==> !us[j].PriceUpdate?)
              ==> ApplyAll(d, us).price == us[k].p
    decreases |us|
  {
    if |us| > 0 {
      LastPriceWins(Apply(d, us[0]), us[1..]);
      forall k | 0 <= k < |us| && us[k].PriceUpdate? && (forall j :: k < j < |us| ==> !us[j].PriceUpdate?)
        ensures ApplyAll(d, us).price == us[k].p
      {
        if k > 0 {
          assert us[1..][k - 1] == us[k];
        } else {
          assert forall i :: 0 <= i < |us[1..]| ==> !us[1..][i].PriceUpdate? by {
            forall i | 0 <= i < |us[1..]| ensures !us[1..][i].PriceUpdate? {
              assert us[1..][i] == us[i + 1];
            }
          }
        }
      }
    }
  }

  /** The stored error is the one of the last error write, or the original one
      when there was no error write: a price write never clears an error. */
  lemma {:induction false} LastErrorWins(d: TickerData, us: seq<Update>)
    ensures (forall i :: 0 <= i < |us| ==> !us[i].ErrorUpdate?) ==> ApplyAll(d, us).err == d.err
    ensures forall k :: 0 <= k < |us| && us[k].ErrorUpdate? && (forall j :: k < j < |us| ==> !us[j].ErrorUpdate?)
              ==> ApplyAll(d, us).err == us[k].e
    decreases |us|
  {
    if |us| > 0 {
      LastErrorWins(Apply(d, us[0]), us[1..]);
      forall k | 0 <= k < |us| && us[k].ErrorUpdate? && (forall j :: k < j < |us| ==> !us[j].ErrorUpdate?)
        ensures ApplyAll(d, us).err == us[k].e
      {
        if k > 0 {
          assert us[1..][k - 1] == us[k];
        } else {
          assert forall i :: 0 <= i < |us[1..]| ==> !us[1..][i].ErrorUpdate? by {
            forall i | 0 <= i < |us[1..]| ensures !us[1..][i].ErrorUpdate? {
              assert us[1..][i] == us[i + 1];
            }
          }
        }
      }
    }
  }

  /** Once a source has stored an error, only an explicit nil error write can
      clear it: any mix of price writes and non-nil error writes leaves it set. */
  lemma {:induction false} ErrorIsSticky(d: TickerData, us: seq<Update>)
    requires d.err.Some?
    requires forall i :: 0 <= i < |us| ==> us[i] != ErrorUpdate(None)
    ensures ApplyAll(d, us).err.Some?
    decreases |us|
  {
    if |us| > 0 {
      assert us[0] != ErrorUpdate(None);
      forall i | 0 <= i < |us[1..]| ensures us[1..][i] != ErrorUpdate(None) {
        assert us[1..][i] == us[i + 1];
      }
      ErrorIsSticky(Apply(d, us[0]), us[1..]);
    }
  }
}
