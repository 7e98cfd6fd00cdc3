/** Worked examples of the averaging policy and of the shutdown rule, with
    concrete prices and ages. The price parser is left abstract: each lemma
    only demands that it reads the decimal texts it uses as their values. */
module Scenarios {
  import opened Wrappers
  import opened Clock
  import opened Snapshot
  import opened Averager
  import opened Aggregator

  /** A source whose last observation is `price`, made at `time`, with no
      stored error. */
  function Fresh(price: string, time: int): TickerData
  {
    TickerData(TickerPrice("BTC_USD", time, price), None)
  }

  /** Three sources observed at the current instant, quoting 100, 102 and 98:
      equal weights, so the fair price is their plain mean, 100. */
  lemma EqualAgesAverage(now: int, parse: Parser)
    requires parse("100") == Some(100.0) && parse("102") == Some(102.0) && parse("98") == Some(98.0)
    ensures FairPrice([Fresh("100", now), Fresh("102", now), Fresh("98", now)], now, parse) == Success(100.0)
  {
    var data := [Fresh("100", now), Fresh("102", now), Fresh("98", now)];
    var a, b, c := Sample(100.0, 1.0), Sample(102.0, 1.0), Sample(98.0, 1.0);
    assert Contribution(data[0], now, parse) == [a];
    assert Contribution(data[1], now, parse) == [b];
    assert Contribution(data[2], now, parse) == [c];
    assert data[1..][1..] == data[2..] && data[2..][1..] == [];
    assert data[1..][0] == data[1] && data[2..][0] == data[2];
    assert Samples(data[2..], now, parse) == [c];
    assert Samples(data[1..], now, parse) == [b, c];
    var ss := Samples(data, now, parse);
    assert ss == [a, b, c];
    assert ss[1..] == [b, c] && ss[1..][1..] == [c] && [c][1..] == [];
    assert SumWeight([c]) == 1.0 && SumWeighted([c]) == 98.0;
    assert SumWeight([b, c]) == 2.0 && SumWeighted([b, c]) == 200.0;
    assert SumWeight(ss) == 3.0 && SumWeighted(ss) == 300.0;
  }

  /** A source quoting 100 observed now (weight 1) and one quoting 110
      observed 90 seconds ago (weight 1 - 90/120 = 0.25): the fair price is
      (100 * 1 + 110 * 0.25) / 1.25 = 102. */
  lemma MixedAgesAverage(now: int, parse: Parser)
    requires parse("100") == Some(100.0) && parse("110") == Some(110.0)
    ensures FairPrice([Fresh("100", now), Fresh("110", now - 90 * Second)], now, parse) == Success(102.0)
  {
    var data := [Fresh("100", now), Fresh("110", now - 90 * Second)];
    var a, b := Sample(100.0, 1.0), Sample(110.0, 0.25);
    assert Weight(90 * Second) == 0.25;
    assert Contribution(data[0], now, parse) == [a];
    assert Contribution(data[1], now, parse) == [b];
    assert data[1..][1..] == [] && data[1..][0] == data[1];
    assert Samples(data[1..], now, parse) == [b];
    var ss := Samples(data, now, parse);
    assert ss == [a, b];
    assert ss[1..] == [b] && [b][1..] == [];
    assert SumWeight([b]) == 0.25 && SumWeighted([b]) == 27.5;
    assert SumWeight(ss) == 1.25 && SumWeighted(ss) == 127.5;
  }

  /** When every source is at least the expiry period old at a firing, the
      error is sent once, both channels are closed, and no later firing
      emits anything, however fresh the sources have become by then. */
  lemma AllStaleShutsDown(ticker: string, data: seq<TickerData>, calcAt: int, stampAt: int,
                          more: seq<Observation>, parse: Parser, format: Formatter)
    requires forall i :: 0 <= i < |data| ==> Age(data[i], calcAt) >= ExpirePeriod
    ensures Run(ticker, Observe([Observation(data, calcAt, stampAt)] + more, parse), format) == Closing(NoValidData)
  {
    var o := Observation(data, calcAt, stampAt);
    FailsIffNoneIncluded(data, calcAt, parse);
    assert !AnyIncluded(data, calcAt, parse);
    var ticks := Observe([o] + more, parse);
    assert ([o] + more)[0] == o;
    assert Fails(ticks[0]);
  }
}
