/**
 * Turning the simulator's trade log into per-trade returns and profits: a sell
 * whose immediately preceding record is a buy closes a round trip, with
 * profit `exit - entry` and return `profit / entry`. Every other record adds
 * nothing.
 */
module TradeLog {
  import opened Wrappers
  import opened SeriesOps
  import opened Performance

  /** The `type` of a record; anything other than "buy" and "sell" is `Other`. */
  datatype Kind = Buy | Sell | Other

  datatype Trade = Trade(kind: Kind, price: real)

  /** The two lists the loop builds. */
  datatype Pairs = Pairs(rets: seq<real>, profits: seq<real>)

  /** A round trip whose entry price is zero: `profit / entry_price` raises. */
  datatype ExtractError = ZeroEntryPrice(exitIndex: nat)

  /** Record `i` is a sell and record `i - 1` exists and is a buy. */
  predicate ClosesRoundTrip(log: seq<Trade>, i: nat): (r: bool)
    requires i < |log|
    ensures i == 0 ==> !r
    ensures r ==> log[i - 1].kind != log[i].kind
    ensures r && i + 1 < |log| ==> !(log[i + 1].kind == Sell && log[i].kind == Buy)
  {
    log[i].kind == Sell && i > 0 && log[i - 1].kind == Buy
  }

  /** A round trip closing at `i` whose entry price is zero. */
  predicate ZeroEntry(log: seq<Trade>, i: nat)
    requires i < |log|
  {
    ClosesRoundTrip(log, i) && log[i - 1].price == 0.0
  }

  /** The indices of the records that close a round trip, in log order; at most one per sell record. */
  function RoundTripExits(log: seq<Trade>): (e: seq<nat>)
    ensures |e| <= CountSells(log)
  {
    if log == [] then []
    else
      var n := |log| - 1;
      if ClosesRoundTrip(log, n) then RoundTripExits(log[..n]) + [n] else RoundTripExits(log[..n])
  }

  /** The exits are exactly the round-trip closing records, in increasing order. */
  lemma {:induction false} ExitsExactly(log: seq<Trade>)
    ensures var e := RoundTripExits(log);
      && (forall k :: 0 <= k < |e| ==> e[k] < |log| && ClosesRoundTrip(log, e[k]))
      && (forall k, l :: 0 <= k < l < |e| ==> e[k] < e[l])
      && (forall i :: 0 <= i < |log| && ClosesRoundTrip(log, i) ==> i in e)
  {
    if log != [] {
      var n := |log| - 1;
      var init := log[..n];
      ExitsExactly(init);
      var prev := RoundTripExits(init);
      assert forall i :: 0 <= i < n ==> (ClosesRoundTrip(init, i) <==> ClosesRoundTrip(log, i));
    }
  }

  /**
   * What the loop leaves behind: the two lists, or the error of the first round
   * trip with a zero entry price.
   */
  function Extraction(log: seq<Trade>): (r: Result<Pairs, ExtractError>)
    ensures r.Success? ==> |r.value.rets| == |r.value.profits|
  {
    if log == [] then Success(Pairs([], []))
    else
      var n := |log| - 1;
      match Extraction(log[..n])
      case Failure(e) => Failure(e)
      case Success(p) =>
        if ClosesRoundTrip(log, n) then
          var entry, exit := log[n - 1].price, log[n].price;
          if entry == 0.0 then Failure(ZeroEntryPrice(n))
          else
            var profit := exit - entry;
            Success(Pairs(p.rets + [profit / entry], p.profits + [profit]))
        else Success(p)
  }

  /** Once the loop has raised, later records change nothing. */
  lemma {:induction false} FailureSticks(log: seq<Trade>, n: nat)
    requires n <= |log| && Extraction(log[..n]).Failure?
    ensures Extraction(log) == Extraction(log[..n])
    decreases |log|
  {
    if n < |log| {
      var m := |log| - 1;
      assert log[..m][..n] == log[..n];
      FailureSticks(log[..m], n);
    } else {
      assert log[..n] == log;
    }
  }

  /** The loop of `main` that builds `trade_returns` and `trade_profits`. */
  method ExtractTradeReturns(log: seq<Trade>) returns (res: Result<Pairs, ExtractError>)
    ensures res == Extraction(log)
  {
    var rets: seq<real> := [];
    var profits: seq<real> := [];
    for i := 0 to |log|
      invariant Extraction(log[..i]) == Success(Pairs(rets, profits))
    {
      assert log[..i + 1][..i] == log[..i];
      var trade := log[i];
      if trade.kind == Sell {
        if i > 0 && log[i - 1].kind == Buy {
          var entryPrice := log[i - 1].price;
          var exitPrice := trade.price;
          var profit := exitPrice - entryPrice;
          if entryPrice == 0.0 {
            FailureSticks(log, i + 1);
            return Failure(ZeroEntryPrice(i));
          }
          var ret := profit / entryPrice;
          rets := rets + [ret];
          profits := profits + [profit];
        }
      }
    }
    assert log[..|log|] == log;
    res := Success(Pairs(rets, profits));
  }

  /** `p` holds, in order, the profit and the return of the round trips closing at the indices `e`. */
  predicate Emitted(log: seq<Trade>, e: seq<nat>, p: Pairs)
  {
    && |p.profits| == |e| == |p.rets|
    && forall k :: 0 <= k < |e| ==>
         && 0 < e[k] < |log|
         && p.profits[k] == log[e[k]].price - log[e[k] - 1].price
         && log[e[k] - 1].price != 0.0
         && p.rets[k] * log[e[k] - 1].price == p.profits[k]
  }

  /**
   * Each emitted pair comes from the k-th round trip in log order: its profit
   * is the exit price minus the entry price and its return is the profit over
   * the entry price.
   */
  lemma {:induction false} ExtractionValues(log: seq<Trade>)
    requires Extraction(log).Success?
    ensures Emitted(log, RoundTripExits(log), Extraction(log).value)
  {
    if log != [] {
      var init := log[..|log| - 1];
      ExtractionStep(log);
      ExtractionValues(init);
      EmittedStep(log);
    }
  }

  /** What the pairs of a log's prefix without its last record say carries over to the whole log. */
  lemma EmittedStep(log: seq<Trade>)
    requires log != [] && Extraction(log).Success?
    requires var init := log[..|log| - 1];
      Extraction(init).Success? && Emitted(init, RoundTripExits(init), Extraction(init).value)
    ensures Emitted(log, RoundTripExits(log), Extraction(log).value)
  {
    var n := |log| - 1;
    var init := log[..n];
    ExtractionStep(log);
    var e0, p0 := RoundTripExits(init), Extraction(init).value;
    EmittedExtends(init, log, e0, p0);
    if ClosesRoundTrip(log, n) {
      EmittedAppend(log, e0, p0, n);
    }
  }

  /** One step of the loop: the last record either closes a round trip or adds nothing. */
  lemma ExtractionStep(log: seq<Trade>)
    requires log != [] && Extraction(log).Success?
    ensures var n := |log| - 1;
      var init := log[..n];
      && Extraction(init).Success?
      && (ClosesRoundTrip(log, n) ==>
            var profit := log[n].price - log[n - 1].price;
            && log[n - 1].price != 0.0
            && Extraction(log).value
               == Pairs(Extraction(init).value.rets + [profit / log[n - 1].price], Extraction(init).value.profits + [profit])
            && RoundTripExits(log) == RoundTripExits(init) + [n])
      && (!ClosesRoundTrip(log, n) ==>
            Extraction(log).value == Extraction(init).value && RoundTripExits(log) == RoundTripExits(init))
  {
  }

  lemma EmittedExtends(init: seq<Trade>, log: seq<Trade>, e: seq<nat>, p: Pairs)
    requires init <= log && Emitted(init, e, p)
    ensures Emitted(log, e, p)
  {
    forall k | 0 <= k < |e|
      ensures log[e[k]] == init[e[k]] && log[e[k] - 1] == init[e[k] - 1]
    {
    }
  }

  lemma EmittedAppend(log: seq<Trade>, e: seq<nat>, p: Pairs, n: nat)
    requires Emitted(log, e, p) && 0 < n < |log| && log[n - 1].price != 0.0
    ensures var profit := log[n].price - log[n - 1].price;
      Emitted(log, e + [n], Pairs(p.rets + [profit / log[n - 1].price], p.profits + [profit]))
  {
  }

  /** The loop raises exactly when some round trip has a zero entry price, and then at the first one. */
  lemma {:induction false} FailureExactly(log: seq<Trade>)
    ensures Extraction(log).Failure? <==> exists i :: 0 <= i < |log| && ZeroEntry(log, i)
    ensures Extraction(log).Failure? ==>
      var i := Extraction(log).error.exitIndex;
      && i < |log| && ZeroEntry(log, i)
      && forall j :: 0 <= j < i ==> !ZeroEntry(log, j)
  {
    if log != [] {
      var n := |log| - 1;
      var init := log[..n];
      FailureExactly(init);
      assert forall j :: 0 <= j < n ==> (ZeroEntry(init, j) <==> ZeroEntry(log, j));
      if Extraction(init).Failure? {
        var j :| 0 <= j < n && ZeroEntry(init, j);
        assert ZeroEntry(log, j);
        var i := Extraction(init).error.exitIndex;
        assert Extraction(log) == Extraction(init);
        assert ZeroEntry(log, i);
      } else if Extraction(log).Failure? {
        assert Extraction(log).error.exitIndex == n;
        assert ZeroEntry(log, n);
      } else {
        assert !ZeroEntry(log, n);
      }
    }
  }

  /** With every price positive, the loop never raises. */
  lemma PositivePricesNeverFail(log: seq<Trade>)
    requires forall i :: 0 <= i < |log| ==> log[i].price > 0.0
    ensures Extraction(log).Success?
  {
    FailureExactly(log);
  }

  /** The number of sell records. */
  function CountSells(log: seq<Trade>): (c: nat)
    ensures c <= |log|
    ensures c == 0 <==> forall i :: 0 <= i < |log| ==> log[i].kind != Sell
  {
    if log == [] then 0 else CountSells(log[..|log| - 1]) + (if log[|log| - 1].kind == Sell then 1 else 0)
  }

  /** A log that alternates buy, sell, buy, sell, ... pairs every sell. */
  lemma {:induction false} AlternatingLogPairsEverySell(log: seq<Trade>)
    requires forall i :: 0 <= i < |log| ==> log[i].kind == if i % 2 == 0 then Buy else Sell
    ensures |RoundTripExits(log)| == CountSells(log) == |log| / 2
  {
    if log != [] {
      var n := |log| - 1;
      AlternatingLogPairsEverySell(log[..n]);
    }
  }

  /** The sign of a quotient by a positive entry price is the sign of the dividend. */
  lemma QuotientSign(profit: real, entry: real)
    requires entry > 0.0
    ensures profit / entry > 0.0 <==> profit > 0.0
    ensures profit / entry < 0.0 <==> profit < 0.0
  {
    var q := profit / entry;
    assert q * entry == profit;
    if q > 0.0 {
      ProductPositive(q, entry);
    }
    if q < 0.0 {
      ProductPositive(-q, entry);
    }
  }

  /**
   * With positive entry prices each return has the sign of its profit, so the
   * return-based and profit-based counts of wins and of losses agree.
   */
  lemma SignsAgree(log: seq<Trade>)
    requires forall i :: 0 <= i < |log| ==> log[i].price > 0.0
    ensures Extraction(log).Success?
    ensures var p := Extraction(log).value;
      && (forall k :: 0 <= k < |p.rets| ==>
            (p.rets[k] > 0.0 <==> p.profits[k] > 0.0) && (p.rets[k] < 0.0 <==> p.profits[k] < 0.0))
      && |Select(p.rets, Win)| == |Select(p.profits, Win)|
      && |Select(p.rets, Loss)| == |Select(p.profits, Loss)|
  {
    PositivePricesNeverFail(log);
    ExtractionValues(log);
    var p := Extraction(log).value;
    var e := RoundTripExits(log);
    forall k | 0 <= k < |p.rets|
      ensures (p.rets[k] > 0.0 <==> p.profits[k] > 0.0) && (p.rets[k] < 0.0 <==> p.profits[k] < 0.0)
    {
      QuotientSign(p.profits[k], log[e[k] - 1].price);
    }
    SameSignsSameCounts(p.rets, p.profits, Win);
    SameSignsSameCounts(p.rets, p.profits, Loss);
  }

  lemma {:induction false} SameSignsSameCounts(a: seq<real>, b: seq<real>, side: Side)
    requires |a| == |b|
    requires forall k :: 0 <= k < |a| ==> (a[k] > 0.0 <==> b[k] > 0.0) && (a[k] < 0.0 <==> b[k] < 0.0)
    ensures |Select(a, side)| == |Select(b, side)|
  {
    if a != [] {
      SameSignsSameCounts(Init(a), Init(b), side);
    }
  }

  /**
   * The log feeds `calculate_performance` with the returns and the profits: the
   * report counts one trade per round trip and is refused when there is none.
   */
  lemma ReportOfLog(log: seq<Trade>)
    requires Extraction(log).Success?
    ensures var p := Extraction(log).value;
      && (PerformanceOf(p.rets, Some(p.profits)).Failure? <==> RoundTripExits(log) == [])
      && (PerformanceOf(p.rets, Some(p.profits)).Success? ==>
            PerformanceOf(p.rets, Some(p.profits)).value.numTrades == |RoundTripExits(log)|)
  {
    ExtractionValues(log);
  }
}
