/** The driver `main` (stocks.py:96-122): one download per command-line
    ticker, in argument order, a statistics record appended for every
    ticker that produced a non-empty price list, and a single write of the
    collected records when there is at least one. */
module Driver {
  import opened Wrappers
  import opened Analysis
  import opened Download

  /** How a run ends: the usage message and exit status 1 when no ticker is
      given; an exception from `download_data` that nothing catches, which
      ends the program before anything is written; or the records collected
      and whether `stocks.json` is (over)written with them. */
  datatype Exit =
    | Usage
    | Crashed(error: Raised)
    | Finished(results: seq<StatsRecord>, writes: bool)

  /** The process exit status: 1 for the usage error and for an uncaught
      exception, 0 otherwise, whatever happened to individual tickers. */
  function ExitStatus(exit: Exit): int {
    if exit.Finished? then 0 else 1
  }

  /** The test of stocks.py:107: the download returned a dictionary whose
      price list is not empty. */
  predicate Usable(d: Fetched) {
    d.Prices? && |d.prices| > 0
  }

  /** The test of stocks.py:107 passes exactly when the analyser returns a
      record for the downloaded prices, so the later `if stats:` never
      fails. */
  lemma UsableHasRecord(d: Fetched, ticker: string)
    requires d.Prices?
    ensures Usable(d) <==> StockPrices(d.prices, ticker).Some?
  {
  }

  /** No download in `ds` raised. */
  predicate NoneRaised(ds: seq<Fetched>) {
    forall i :: 0 <= i < |ds| ==> !ds[i].Exception?
  }

  /** The downloads of the tickers, the i-th made with the i-th response. */
  function Downloads(tickers: seq<string>, responses: seq<Response>, parse: string -> Option<real>): (ds: seq<Fetched>)
    requires |responses| == |tickers|
    ensures |ds| == |tickers|
    ensures forall i :: 0 <= i < |ds| ==> ds[i] == DownloadData(tickers[i], responses[i], parse)
  {
    seq(|tickers|, i requires 0 <= i < |tickers| => DownloadData(tickers[i], responses[i], parse))
  }

  /** The record `main` appends for a usable download: the statistics of its
      prices under the ticker exactly as it was given on the command line. */
  function RecordOf(ticker: string, d: Fetched): (r: StatsRecord)
    requires Usable(d)
    ensures Some(r) == StockPrices(d.prices, ticker)
    ensures r.ticker == ticker
  {
    StockPrices(d.prices, ticker).value
  }

  /** The records collected for the tickers when no download raises: one
      per usable download, in argument order, the others skipped. */
  function Collect(tickers: seq<string>, ds: seq<Fetched>): (rs: seq<StatsRecord>)
    requires |ds| == |tickers|
    ensures |rs| <= |tickers|
  {
    if |tickers| == 0 then []
    else
      var n := |tickers| - 1;
      Collect(tickers[..n], ds[..n]) + (if Usable(ds[n]) then [RecordOf(tickers[n], ds[n])] else [])
  }

  /** The number of usable downloads. */
  function CountUsable(ds: seq<Fetched>): nat {
    if |ds| == 0 then 0 else CountUsable(ds[..|ds| - 1]) + (if Usable(ds[|ds| - 1]) then 1 else 0)
  }

  /** Collecting over two runs of tickers one after the other is collecting
      over each and concatenating: a skipped ticker does not stop the later
      ones, and records keep the order of their tickers. */
  lemma {:induction false} CollectConcat(t1: seq<string>, d1: seq<Fetched>, t2: seq<string>, d2: seq<Fetched>)
    requires |d1| == |t1| && |d2| == |t2|
    ensures Collect(t1 + t2, d1 + d2) == Collect(t1, d1) + Collect(t2, d2)
  {
    if |t2| == 0 {
      assert t1 + t2 == t1 && d1 + d2 == d1;
    } else {
      var n := |t2| - 1;
      var t, d := t2[..n], d2[..n];
      SplitLast(t1, t2);
      SplitLast(d1, d2);
      CollectSnoc(t1 + t, d1 + d, t2[n], d2[n]);
      CollectSnoc(t, d, t2[n], d2[n]);
      CollectConcat(t1, d1, t, d);
      var last := if Usable(d2[n]) then [RecordOf(t2[n], d2[n])] else [];
      AppendAssoc(Collect(t1, d1), Collect(t, d), last);
    }
  }

  /** Splitting off the last element of the second part of a concatenation. */
  lemma SplitLast<T>(a: seq<T>, b: seq<T>)
    requires |b| > 0
    ensures b == b[..|b| - 1] + [b[|b| - 1]]
    ensures a + b == (a + b[..|b| - 1]) + [b[|b| - 1]]
  {
  }

  /** Concatenation is associative. */
  lemma AppendAssoc<T>(a: seq<T>, b: seq<T>, c: seq<T>)
    ensures (a + b) + c == a + (b + c)
  {
  }

  /** One more ticker at the end appends its record if its download is usable. */
  lemma CollectSnoc(tickers: seq<string>, ds: seq<Fetched>, ticker: string, d: Fetched)
    requires |ds| == |tickers|
    ensures Collect(tickers + [ticker], ds + [d])
            == Collect(tickers, ds) + (if Usable(d) then [RecordOf(ticker, d)] else [])
  {
    assert (tickers + [ticker])[..|tickers|] == tickers;
    assert (ds + [d])[..|ds|] == ds;
  }

  /** `r` is the record of some usable download under its own argument. */
  predicate RecordFrom(r: StatsRecord, tickers: seq<string>, ds: seq<Fetched>)
    requires |ds| == |tickers|
  {
    exists i :: 0 <= i < |tickers| && Usable(ds[i]) && r == RecordOf(tickers[i], ds[i])
  }

  /** There is one record per usable download, and every record is the
      statistics record of some usable download under its own argument. */
  lemma CollectRecords(tickers: seq<string>, ds: seq<Fetched>)
    requires |ds| == |tickers|
    ensures |Collect(tickers, ds)| == CountUsable(ds)
    ensures forall j :: 0 <= j < |Collect(tickers, ds)| ==> RecordFrom(Collect(tickers, ds)[j], tickers, ds)
  {
    CollectCount(tickers, ds);
    CollectSources(tickers, ds);
  }

  /** One record per usable download. */
  lemma {:induction false} CollectCount(tickers: seq<string>, ds: seq<Fetched>)
    requires |ds| == |tickers|
    ensures |Collect(tickers, ds)| == CountUsable(ds)
  {
    if |tickers| > 0 {
      var n := |tickers| - 1;
      CollectCount(tickers[..n], ds[..n]);
    }
  }

  /** Every record comes from a usable download under its own argument. */
  lemma {:induction false} CollectSources(tickers: seq<string>, ds: seq<Fetched>)
    requires |ds| == |tickers|
    ensures forall j :: 0 <= j < |Collect(tickers, ds)| ==> RecordFrom(Collect(tickers, ds)[j], tickers, ds)
  {
    if |tickers| > 0 {
      var n := |tickers| - 1;
      CollectSources(tickers[..n], ds[..n]);
      var prefix := Collect(tickers[..n], ds[..n]);
      var last := if Usable(ds[n]) then [RecordOf(tickers[n], ds[n])] else [];
      var all := prefix + last;
      assert Collect(tickers, ds) == all;
      forall j | 0 <= j < |all|
        ensures RecordFrom(all[j], tickers, ds)
      {
        if j < |prefix| {
          assert all[j] == prefix[j];
          RecordFromPrefix(prefix[j], tickers, ds, n);
        } else {
          assert all[j] == RecordOf(tickers[n], ds[n]);
          assert RecordFrom(all[j], tickers, ds) by {
            assert 0 <= n < |tickers| && Usable(ds[n]) && all[j] == RecordOf(tickers[n], ds[n]);
          }
        }
      }
    }
  }

  /** A record from a download of a prefix of the tickers is a record from a download of all of them. */
  lemma RecordFromPrefix(r: StatsRecord, tickers: seq<string>, ds: seq<Fetched>, n: nat)
    requires |ds| == |tickers| && n <= |tickers|
    requires RecordFrom(r, tickers[..n], ds[..n])
    ensures RecordFrom(r, tickers, ds)
  {
    var t, d := tickers[..n], ds[..n];
    var i :| 0 <= i < |t| && Usable(d[i]) && r == RecordOf(t[i], d[i]);
    assert t[i] == tickers[i] && d[i] == ds[i];
  }

  /** One more ticker appends its record if its download is usable, and nothing otherwise. */
  lemma CollectStep(tickers: seq<string>, ds: seq<Fetched>, i: nat)
    requires |ds| == |tickers| && i < |tickers|
    ensures Collect(tickers[..i + 1], ds[..i + 1])
            == Collect(tickers[..i], ds[..i]) + (if Usable(ds[i]) then [RecordOf(tickers[i], ds[i])] else [])
  {
    assert tickers[..i + 1][..i] == tickers[..i];
    assert ds[..i + 1][..i] == ds[..i];
  }

  /** A download that raises after downloads that did not is the one that
      ends the run. */
  lemma RaisedAt(ds: seq<Fetched>, i: nat)
    requires i < |ds| && NoneRaised(ds[..i]) && ds[i].Exception?
    ensures !NoneRaised(ds)
    ensures exists k :: 0 <= k < |ds| && ds[k] == Exception(ds[i].error) && NoneRaised(ds[..k])
  {
  }

  /** A download that did not raise extends a prefix in which none raised. */
  lemma NoneRaisedStep(ds: seq<Fetched>, i: nat)
    requires i < |ds| && NoneRaised(ds[..i]) && !ds[i].Exception?
    ensures NoneRaised(ds[..i + 1])
  {
    assert ds[..i + 1] == ds[..i] + [ds[i]];
  }

  /** Every record satisfies the order facts of the analyser and carries one
      of the command-line arguments as its ticker. */
  lemma CollectedRecordsAreSound(tickers: seq<string>, ds: seq<Fetched>)
    requires |ds| == |tickers|
    ensures forall r :: r in Collect(tickers, ds) ==>
              r.min <= r.medium <= r.max && r.min <= r.avg <= r.max && r.ticker in tickers
  {
    CollectRecords(tickers, ds);
    forall r | r in Collect(tickers, ds)
      ensures r.min <= r.medium <= r.max && r.min <= r.avg <= r.max && r.ticker in tickers
    {
      var j :| 0 <= j < |Collect(tickers, ds)| && Collect(tickers, ds)[j] == r;
      var i :| 0 <= i < |tickers| && Usable(ds[i]) && r == RecordOf(tickers[i], ds[i]);
    }
  }

  /** Without a usable download no record is collected, so nothing is written. */
  lemma NoUsableNoRecords(tickers: seq<string>, ds: seq<Fetched>)
    requires |ds| == |tickers|
    requires forall i :: 0 <= i < |ds| ==> !Usable(ds[i])
    ensures Collect(tickers, ds) == []
  {
    CollectRecords(tickers, ds);
  }

  /** A single ticker whose request fails is skipped: no record, no write. */
  lemma FailedRequestExample(ticker: string, parse: string -> Option<real>)
    ensures Collect([ticker], Downloads([ticker], [RequestFailed], parse)) == []
  {
    var ds := Downloads([ticker], [RequestFailed], parse);
    assert ds[0] == FetchFailed;
    NoUsableNoRecords([ticker], ds);
  }

  /** A single ticker with a usable download collects exactly its record. */
  lemma CollectSingle(ticker: string, d: Fetched)
    requires Usable(d)
    ensures Collect([ticker], [d]) == [RecordOf(ticker, d)]
  {
    assert [ticker][..0] == [] && [d][..0] == [];
  }

  /** A response holding a trades table of three rows
      whose closes are the three plain strings behind a dollar sign. */
  function ThreeCloses(ten: string, twenty: string, thirty: string): Response {
    var rows := [Row(Present("$" + ten)), Row(Present("$" + twenty)), Row(Present("$" + thirty))];
    Received(Present(DataObject(Present(TradesTable(Present(rows))))))
  }

  /** Downloading that response, when the plain strings convert to 10, 20
      and 30, gives those prices in row order under the upper-cased ticker. */
  lemma DownloadThreeCloses(ticker: string, parse: string -> Option<real>, ten: string, twenty: string, thirty: string)
    requires Plain(ten) && Plain(twenty) && Plain(thirty)
    requires parse(ten) == Some(10.0) && parse(twenty) == Some(20.0) && parse(thirty) == Some(30.0)
    ensures DownloadData(ticker, ThreeCloses(ten, twenty, thirty), parse).Prices?
    ensures DownloadData(ticker, ThreeCloses(ten, twenty, thirty), parse).ticker == Upper(ticker)
    ensures DownloadData(ticker, ThreeCloses(ten, twenty, thirty), parse).prices == [10.0, 20.0, 30.0]
  {
    var rows := [Row(Present("$" + ten)), Row(Present("$" + twenty)), Row(Present("$" + thirty))];
    DollarClosePrice(ten, parse, 10.0);
    DollarClosePrice(twenty, parse, 20.0);
    DollarClosePrice(thirty, parse, 30.0);
    ParseRowsOk(rows, parse, [10.0, 20.0, 30.0]);
  }

  /** Example, from response to record: one ticker whose closes are $10.00, $20.00
      and $30.00 yields exactly one record, with minimum 10, maximum 30, mean
      and median 20, under the ticker as it was typed (the upper-cased form
      is only used for the request). */
  lemma EndToEndExample(ticker: string, parse: string -> Option<real>, ten: string, twenty: string, thirty: string)
    requires Plain(ten) && Plain(twenty) && Plain(thirty)
    requires parse(ten) == Some(10.0) && parse(twenty) == Some(20.0) && parse(thirty) == Some(30.0)
    ensures Collect([ticker], Downloads([ticker], [ThreeCloses(ten, twenty, thirty)], parse))
            == [StatsRecord(10.0, 30.0, 20.0, 20.0, ticker)]
  {
    var ds := Downloads([ticker], [ThreeCloses(ten, twenty, thirty)], parse);
    var d := ds[0];
    assert ds == [d];
    DownloadThreeCloses(ticker, parse, ten, twenty, thirty);
    var prices := d.prices;
    assert |prices| == 3 && prices[0] == 10.0 && prices[1] == 20.0 && prices[2] == 30.0;
    assert Sorted(prices);
    CollectSingle(ticker, d);
    StockPricesOfSortedThree(prices, ticker);
    assert (10.0 + 20.0 + 30.0) / 3.0 == 20.0;
  }

  /** `main()` run with `sys.argv == argv`, where `responses[i]` is what the request for the i-th
      ticker produced and `parse` stands for `float`. */
  method Run(argv: seq<string>, responses: seq<Response>, parse: string -> Option<real>) returns (exit: Exit)
    requires |argv| >= 1 && |responses| == |argv| - 1
    ensures exit == Usage <==> |argv| < 2
    ensures exit.Crashed? <==> |argv| >= 2 && !NoneRaised(Downloads(argv[1..], responses, parse))
    ensures exit.Crashed? ==>
              var ds := Downloads(argv[1..], responses, parse);
              exists k :: 0 <= k < |ds| && ds[k] == Exception(exit.error) && NoneRaised(ds[..k])
    ensures exit.Finished? ==> exit.results == Collect(argv[1..], Downloads(argv[1..], responses, parse))
    ensures exit.Finished? ==> exit.writes == (|exit.results| > 0)
    ensures ExitStatus(exit) == if |argv| >= 2 && NoneRaised(Downloads(argv[1..], responses, parse)) then 0 else 1
  {
    if |argv| < 2 {
      return Usage;
    }
    var tickers := argv[1..];
    ghost var ds := Downloads(tickers, responses, parse);
    var results: seq<StatsRecord> := [];
    var i := 0;
    while i < |tickers|
      invariant 0 <= i <= |tickers|
      invariant NoneRaised(ds[..i])
      invariant results == Collect(tickers[..i], ds[..i])
    {
      var ticker := tickers[i];
      var stockData := DownloadData(ticker, responses[i], parse);
      assert stockData == ds[i];
      if stockData.Exception? {
        // the exception propagates out of `main`
        RaisedAt(ds, i);
        return Crashed(stockData.error);
      }
      CollectStep(tickers, ds, i);
      if stockData.Prices? && |stockData.prices| > 0 {
        var stats := StockPrices(stockData.prices, ticker);
        if stats.Some? {
          results := results + [stats.value];
        }
      }
      NoneRaisedStep(ds, i);
      i := i + 1;
    }
    assert tickers[..i] == tickers && ds[..i] == ds;
    return Finished(results, |results| > 0);
  }
}
