/** `fetch_stock_data`: walk the ticker list in order and, for every ticker
    whose price history has at least two closes, record the last close and the
    percentage change from the close before it, both rounded to two decimals.
    The market-data call is not modelled: `histories[i]` is the list of
    closing prices the provider returned for `tickers[i]`. */
module Quotes {

  import opened PyDict
  import opened StringOrder

  type Ticker = string

  /** The ticker list the job runs with. */
  const Tickers: seq<Ticker> := ["AAPL", "NVDA", "MSFT", "AMD", "TSM", "AMZN", "GOOG", "META", "TSLA", "QQQ"]

  /** A stored quote: `round(current_close, 2)` and `round(change, 2)`, each
      held as a whole number of hundredths. */
  datatype Quote = Quote(price: int, change: int)

  /** `round(x, 2)`, as a number of hundredths: the nearest one, a tie going
      up. */
  function RoundHundredths(x: real): (h: int)
    ensures (h as real) - 0.5 <= x * 100.0 < (h as real) + 0.5
  {
    (x * 100.0 + 0.5).Floor
  }

  /** Rounding never reverses the order of two amounts. */
  lemma RoundHundredthsMonotonic(x: real, y: real)
    requires x <= y
    ensures RoundHundredths(x) <= RoundHundredths(y)
  {
  }

  /** `((current_close - last_close) / last_close) * 100` */
  function PercentChange(lastClose: real, currentClose: real): real
    requires lastClose != 0.0
  {
    (currentClose - lastClose) / lastClose * 100.0
  }

  /** A history yields a quote when it holds at least two closes. */
  predicate HasTwoCloses(history: seq<real>) {
    |history| >= 2
  }

  /** The closing price before the last one is never zero (a division by it
      follows). */
  predicate PreviousClosesNonZero(histories: seq<seq<real>>) {
    forall i :: 0 <= i < |histories| && HasTwoCloses(histories[i]) ==> histories[i][|histories[i]| - 2] != 0.0
  }

  /** The quote recorded for a history: the last close, and the change from
      the second-to-last close to the last, each to the nearest hundredth.
      Nothing before the final two entries matters. */
  function QuoteOf(history: seq<real>): (q: Quote)
    requires HasTwoCloses(history) && history[|history| - 2] != 0.0
    ensures var lastClose, currentClose := history[|history| - 2], history[|history| - 1];
      && (q.price as real) - 0.5 <= currentClose * 100.0 < (q.price as real) + 0.5
      && (q.change as real) - 0.5 <= PercentChange(lastClose, currentClose) * 100.0 < (q.change as real) + 0.5
  {
    var lastClose := history[|history| - 2];
    var currentClose := history[|history| - 1];
    Quote(RoundHundredths(currentClose), RoundHundredths(PercentChange(lastClose, currentClose)))
  }

  /** Only the final two closes of a history decide its quote. */
  lemma QuoteOfLastTwo(history: seq<real>)
    requires HasTwoCloses(history) && history[|history| - 2] != 0.0
    ensures QuoteOf(history) == QuoteOf(history[|history| - 2..])
  {
  }

  /** With a positive previous close, a rise gives a change of zero or more and
      a fall a change of zero or less. */
  lemma ChangeFollowsPrice(history: seq<real>)
    requires HasTwoCloses(history) && history[|history| - 2] > 0.0
    ensures history[|history| - 1] >= history[|history| - 2] ==> QuoteOf(history).change >= 0
    ensures history[|history| - 1] <= history[|history| - 2] ==> QuoteOf(history).change <= 0
  {
    var lastClose, currentClose := history[|history| - 2], history[|history| - 1];
    var pc := PercentChange(lastClose, currentClose);
    assert RoundHundredths(0.0) == 0;
    if currentClose >= lastClose {
      assert pc >= 0.0;
      RoundHundredthsMonotonic(0.0, pc);
    }
    if currentClose <= lastClose {
      assert pc <= 0.0;
      RoundHundredthsMonotonic(pc, 0.0);
    }
  }

  /** The dictionary `fetch_stock_data` returns: its loop, folded over the
      tickers from first to last. */
  function Fetched(tickers: seq<Ticker>, histories: seq<seq<real>>): (d: Dict<Ticker, Quote>)
    requires |tickers| == |histories| && PreviousClosesNonZero(histories)
    ensures d.Valid()
    decreases |tickers|
  {
    if tickers == [] then Empty()
    else
      var n := |tickers| - 1;
      var d := Fetched(tickers[..n], histories[..n]);
      if HasTwoCloses(histories[n]) then Insert(d, tickers[n], QuoteOf(histories[n])) else d
  }

  /** `fetch_stock_data(tickers)` */
  method FetchStockData(tickers: seq<Ticker>, histories: seq<seq<real>>) returns (stockData: Dict<Ticker, Quote>)
    requires |tickers| == |histories| && PreviousClosesNonZero(histories)
    ensures stockData == Fetched(tickers, histories)
  {
    stockData := Empty();
    for i := 0 to |tickers|
      invariant stockData == Fetched(tickers[..i], histories[..i])
    {
      assert tickers[..i + 1][..i] == tickers[..i] && histories[..i + 1][..i] == histories[..i];
      var hist := histories[i];
      if |hist| >= 2 {
        var lastClose := hist[|hist| - 2];
        var currentClose := hist[|hist| - 1];
        var change := ((currentClose - lastClose) / lastClose) * 100.0;
        stockData := Insert(stockData, tickers[i], Quote(RoundHundredths(currentClose), RoundHundredths(change)));
      }
    }
    assert tickers[..|tickers|] == tickers && histories[..|histories|] == histories;
  }

  /** A ticker is in the result exactly when one of its occurrences in the
      list came with at least two closes. */
  lemma {:induction false} FetchedKeys(tickers: seq<Ticker>, histories: seq<seq<real>>, k: Ticker)
    requires |tickers| == |histories| && PreviousClosesNonZero(histories)
    ensures k in Fetched(tickers, histories).values
        <==> exists i :: 0 <= i < |tickers| && tickers[i] == k && HasTwoCloses(histories[i])
    decreases |tickers|
  {
    if tickers != [] {
      var n := |tickers| - 1;
      FetchedKeys(tickers[..n], histories[..n], k);
      if k in Fetched(tickers, histories).values && !(tickers[n] == k && HasTwoCloses(histories[n])) {
        var i :| 0 <= i < n && tickers[..n][i] == k && HasTwoCloses(histories[..n][i]);
        assert tickers[i] == k && HasTwoCloses(histories[i]);
      }
      if exists i :: 0 <= i < |tickers| && tickers[i] == k && HasTwoCloses(histories[i]) {
        var i :| 0 <= i < |tickers| && tickers[i] == k && HasTwoCloses(histories[i]);
        if i < n {
          assert tickers[..n][i] == k && HasTwoCloses(histories[..n][i]);
        }
      }
    }
  }

  /** The result never has more entries than the ticker list. */
  lemma {:induction false} FetchedSize(tickers: seq<Ticker>, histories: seq<seq<real>>)
    requires |tickers| == |histories| && PreviousClosesNonZero(histories)
    ensures |Fetched(tickers, histories).keys| <= |tickers|
    decreases |tickers|
  {
    if tickers != [] {
      FetchedSize(tickers[..|tickers| - 1], histories[..|tickers| - 1]);
    }
  }

  /** A ticker's entry holds the quote of its last occurrence that had two
      closes (a later assignment to a dictionary key replaces the value). */
  lemma {:induction false} FetchedValue(tickers: seq<Ticker>, histories: seq<seq<real>>, i: nat)
    requires |tickers| == |histories| && PreviousClosesNonZero(histories)
    requires i < |tickers| && HasTwoCloses(histories[i])
    requires forall j :: i < j < |tickers| && tickers[j] == tickers[i] ==> !HasTwoCloses(histories[j])
    ensures tickers[i] in Fetched(tickers, histories).values
    ensures Fetched(tickers, histories).values[tickers[i]] == QuoteOf(histories[i])
    decreases |tickers|
  {
    var n := |tickers| - 1;
    if i < n {
      FetchedValue(tickers[..n], histories[..n], i);
    }
  }

  /** The tickers that have at least two closes, in list order. */
  function Kept(tickers: seq<Ticker>, histories: seq<seq<real>>): seq<Ticker>
    requires |tickers| == |histories|
    decreases |tickers|
  {
    if tickers == [] then []
    else
      var n := |tickers| - 1;
      Kept(tickers[..n], histories[..n]) + (if HasTwoCloses(histories[n]) then [tickers[n]] else [])
  }

  /** For a list without repeats, the result lists exactly the tickers with
      two closes, in the order of the list. */
  lemma {:induction false} FetchedOrder(tickers: seq<Ticker>, histories: seq<seq<real>>)
    requires |tickers| == |histories| && PreviousClosesNonZero(histories)
    requires NoRepeats(tickers)
    ensures Fetched(tickers, histories).keys == Kept(tickers, histories)
    decreases |tickers|
  {
    if tickers != [] {
      var n := |tickers| - 1;
      FetchedOrder(tickers[..n], histories[..n]);
      FetchedKeys(tickers[..n], histories[..n], tickers[n]);
    }
  }

  /** The job's own ticker list has ten different tickers. */
  lemma TickersDistinct()
    ensures |Tickers| == 10 && NoRepeats(Tickers)
  {
  }
}
