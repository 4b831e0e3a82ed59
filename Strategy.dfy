/**
 * The moving-average crossover strategy: two trailing simple moving averages
 * of the close, a 0/1 signal that is 1 while the short average is above the
 * long one (and never before bar `shortWindow`), and a position column that is
 * the bar-to-bar change of the signal (+1 a buy, -1 a sell).
 *
 * Closes are `Option<real>`: `None` is a missing (NaN) price.
 */
module Strategies {
  import opened Wrappers
  import opened SeriesOps

  // ---------------------------------------------------------------------------
  // The strategy object
  // ---------------------------------------------------------------------------

  const DefaultShortWindow: nat := 50
  const DefaultLongWindow: nat := 300

  /** The strategy keeps its data and its two window widths; nothing updates them. */
  datatype SimpleStrategy = SimpleStrategy(closes: seq<Option<real>>, shortWindow: nat, longWindow: nat)

  /** The constructor, with the default windows 50 and 300. */
  function NewStrategy(closes: seq<Option<real>>, shortWindow: nat := DefaultShortWindow,
                       longWindow: nat := DefaultLongWindow): (s: SimpleStrategy)
    ensures s.closes == closes && s.shortWindow == shortWindow && s.longWindow == longWindow
  {
    SimpleStrategy(closes, shortWindow, longWindow)
  }

  // ---------------------------------------------------------------------------
  // Rolling means
  // ---------------------------------------------------------------------------

  predicate AllPresent(s: seq<Option<real>>)
  {
    forall k :: 0 <= k < |s| ==> s[k].Some?
  }

  function Values(s: seq<Option<real>>): (v: seq<real>)
    requires AllPresent(s)
    ensures |v| == |s|
    ensures forall k :: 0 <= k < |s| ==> v[k] == s[k].value
  {
    seq(|s|, k requires 0 <= k < |s| => s[k].value)
  }

  /**
   * `rolling(window=w).mean()` at bar `i`: defined only over a full window of
   * `w >= 1` present closes ending at `i`, and then their average.
   */
  function RollingMean(closes: seq<Option<real>>, w: nat, i: nat): (m: Option<real>)
    requires i < |closes|
    ensures m.Some? <==> 1 <= w <= i + 1 && AllPresent(closes[i + 1 - w..i + 1])
    ensures m.Some? ==> m.value * w as real == Sum(Values(closes[i + 1 - w..i + 1]))
  {
    if 1 <= w <= i + 1 && AllPresent(closes[i + 1 - w..i + 1]) then
      var v := Values(closes[i + 1 - w..i + 1]);
      var m := Mean(v);
      assert m * w as real == Sum(v);
      Some(m)
    else
      None
  }

  /** A defined rolling mean lies within any bounds that hold of the closes in its window. */
  lemma RollingMeanWithin(closes: seq<Option<real>>, w: nat, i: nat, lo: real, hi: real)
    requires i < |closes|
    requires RollingMean(closes, w, i).Some?
    requires forall k :: i + 1 - w <= k <= i ==> closes[k].Some? && lo <= closes[k].value <= hi
    ensures lo <= RollingMean(closes, w, i).value <= hi
  {
    var v := Values(closes[i + 1 - w..i + 1]);
    forall k | 0 <= k < |v|
      ensures lo <= v[k] <= hi
    {
      assert v[k] == closes[i + 1 - w + k].value;
    }
    MeanBounds(v, lo, hi);
  }

  /**
   * Sliding the window one bar: the new mean is the old one plus the entering
   * close minus the leaving close, over the width.
   */
  lemma RollingMeanSlides(closes: seq<Option<real>>, w: nat, i: nat)
    requires i + 1 < |closes|
    requires RollingMean(closes, w, i).Some? && RollingMean(closes, w, i + 1).Some?
    ensures closes[i + 1 - w].Some? && closes[i + 1].Some?
    ensures RollingMean(closes, w, i + 1).value
         == RollingMean(closes, w, i).value + (closes[i + 1].value - closes[i + 1 - w].value) / w as real
  {
    WindowShift(closes, w, i);
    ScaleBack(RollingMean(closes, w, i).value, RollingMean(closes, w, i + 1).value,
              Sum(Values(closes[i + 1 - w..i + 1])), Sum(Values(closes[i + 2 - w..i + 2])),
              closes[i + 1 - w].value, closes[i + 1].value, w as real);
  }

  /** Sliding a full window one bar drops its first close and adds the next one. */
  lemma WindowShift(closes: seq<Option<real>>, w: nat, i: nat)
    requires 1 <= w <= i + 1 && i + 1 < |closes|
    requires AllPresent(closes[i + 1 - w..i + 1]) && AllPresent(closes[i + 2 - w..i + 2])
    ensures closes[i + 1 - w].Some? && closes[i + 1].Some?
    ensures Sum(Values(closes[i + 2 - w..i + 2]))
         == Sum(Values(closes[i + 1 - w..i + 1])) - closes[i + 1 - w].value + closes[i + 1].value
  {
    var mid := closes[i + 2 - w..i + 1];
    assert closes[i + 1 - w..i + 1] == [closes[i + 1 - w]] + mid;
    assert closes[i + 2 - w..i + 2] == mid + [closes[i + 1]];
    WindowSums(closes[i + 1 - w], mid, closes[i + 1]);
  }

  /** The sums of a window with one close in front and with one close behind. */
  lemma WindowSums(x0: Option<real>, mid: seq<Option<real>>, x1: Option<real>)
    requires AllPresent([x0] + mid) && AllPresent(mid + [x1])
    ensures x0.Some? && x1.Some? && AllPresent(mid)
    ensures Sum(Values([x0] + mid)) == x0.value + Sum(Values(mid))
    ensures Sum(Values(mid + [x1])) == Sum(Values(mid)) + x1.value
  {
    SplitPresent([x0], mid);
    SplitPresent(mid, [x1]);
    SumOfConcat([x0], mid);
    SumOfConcat(mid, [x1]);
  }

  lemma SplitPresent(a: seq<Option<real>>, b: seq<Option<real>>)
    requires AllPresent(a + b)
    ensures AllPresent(a) && AllPresent(b)
  {
    assert forall k :: 0 <= k < |a| ==> a[k] == (a + b)[k];
    assert forall k :: 0 <= k < |b| ==> b[k] == (a + b)[|a| + k];
  }

  lemma SumOfConcat(a: seq<Option<real>>, b: seq<Option<real>>)
    requires AllPresent(a) && AllPresent(b)
    ensures AllPresent(a + b) && Sum(Values(a + b)) == Sum(Values(a)) + Sum(Values(b))
    ensures |a| == 1 ==> Sum(Values(a)) == a[0].value
    ensures |b| == 1 ==> Sum(Values(b)) == b[0].value
  {
    PresentConcat(a, b);
    SumAppend(Values(a), Values(b));
    if |a| == 1 {
      assert Values(a) == [a[0].value];
      assert Sum([a[0].value]) == a[0].value;
    }
    if |b| == 1 {
      assert Values(b) == [b[0].value];
      assert Sum([b[0].value]) == b[0].value;
    }
  }

  lemma PresentConcat(a: seq<Option<real>>, b: seq<Option<real>>)
    requires AllPresent(a) && AllPresent(b)
    ensures AllPresent(a + b) && Values(a + b) == Values(a) + Values(b)
  {
    var v := Values(a + b);
    assert forall k :: 0 <= k < |b| ==> v[|a| + k] == Values(b)[k];
  }

  lemma ScaleBack(m0: real, m1: real, s0: real, s1: real, x0: real, x1: real, w: real)
    requires w > 0.0
    requires m0 * w == s0 && m1 * w == s1 && s1 == s0 - x0 + x1
    ensures m1 == m0 + (x1 - x0) / w
  {
    var d := (x1 - x0) / w;
    assert d * w == x1 - x0;
    assert (m0 + d) * w == m1 * w;
  }

  /** `close.rolling(window=w).mean()`: one entry per bar. */
  function Sma(closes: seq<Option<real>>, w: nat): (sma: seq<Option<real>>)
    ensures |sma| == |closes|
    ensures forall i :: 0 <= i < |closes| ==> sma[i] == RollingMean(closes, w, i)
    ensures forall i :: 0 <= i < |closes| ==>
      (sma[i].Some? <==> 1 <= w <= i + 1 && AllPresent(closes[i + 1 - w..i + 1]))
    ensures forall i :: 0 <= i < |closes| && sma[i].Some? ==>
      sma[i].value * w as real == Sum(Values(closes[i + 1 - w..i + 1]))
  {
    seq(|closes|, i requires 0 <= i < |closes| => RollingMean(closes, w, i))
  }

  // ---------------------------------------------------------------------------
  // Signal and position
  // ---------------------------------------------------------------------------

  /** `short_sma > long_sma`; a comparison with a missing value is false. */
  predicate Above(shortSma: Option<real>, longSma: Option<real>): (r: bool)
    ensures r ==> shortSma.Some? && longSma.Some?
    ensures shortSma == longSma ==> !r
    ensures r ==> !(longSma.value > shortSma.value)
  {
    shortSma.Some? && longSma.Some? && shortSma.value > longSma.value
  }

  /**
   * The signal column: 0 everywhere, overwritten from bar `shortWindow` on by
   * the comparison as 0/1.
   */
  function Signals(shortSma: seq<Option<real>>, longSma: seq<Option<real>>, shortWindow: nat): (sig: seq<int>)
    requires |shortSma| == |longSma|
    ensures |sig| == |shortSma|
    ensures forall i :: 0 <= i < |sig| ==> sig[i] == 0 || sig[i] == 1
    ensures forall i :: 0 <= i < |sig| && i < shortWindow ==> sig[i] == 0
    ensures forall i :: shortWindow <= i < |sig| ==> (sig[i] == 1 <==> Above(shortSma[i], longSma[i]))
  {
    seq(|shortSma|, i requires 0 <= i < |shortSma| =>
      if shortWindow <= i && Above(shortSma[i], longSma[i]) then 1 else 0)
  }

  /** The signal column filled in place: zeros first, then the slice from `shortWindow` on. */
  method FillSignal(shortSma: seq<Option<real>>, longSma: seq<Option<real>>, shortWindow: nat)
    returns (signal: array<int>)
    requires |shortSma| == |longSma|
    ensures fresh(signal)
    ensures signal[..] == Signals(shortSma, longSma, shortWindow)
  {
    signal := new int[|shortSma|](_ => 0);
    var i := shortWindow;
    while i < signal.Length
      invariant shortWindow <= i
      invariant forall k :: 0 <= k < signal.Length ==>
        signal[k] == if shortWindow <= k < i && Above(shortSma[k], longSma[k]) then 1 else 0
    {
      signal[i] := if Above(shortSma[i], longSma[i]) then 1 else 0;
      i := i + 1;
    }
  }

  /** `signal.diff()`: undefined at bar 0, then the change from the previous bar. */
  function Positions(signal: seq<int>): (pos: seq<Option<int>>)
    ensures |pos| == |signal|
    ensures |pos| > 0 ==> pos[0].None?
    ensures forall i :: 1 <= i < |pos| ==> pos[i] == Some(signal[i] - signal[i - 1])
    ensures Binary(signal) ==> forall i :: 1 <= i < |pos| ==>
      pos[i].Some? && pos[i].value in {-1, 0, 1} && (pos[i].value != 0 <==> signal[i] != signal[i - 1])
  {
    seq(|signal|, i requires 0 <= i < |signal| => if i == 0 then None else Some(signal[i] - signal[i - 1]))
  }

  predicate Binary(signal: seq<int>)
  {
    forall i :: 0 <= i < |signal| ==> signal[i] == 0 || signal[i] == 1
  }

  /**
   * Over a 0/1 signal every position is -1, 0 or 1; it is nonzero exactly where
   * the signal changes, +1 exactly where it rises and -1 exactly where it falls.
   */
  lemma PositionsAreTrades(signal: seq<int>, i: nat)
    requires Binary(signal) && 1 <= i < |signal|
    ensures Positions(signal)[i].value in {-1, 0, 1}
    ensures Positions(signal)[i].value != 0 <==> signal[i] != signal[i - 1]
    ensures Positions(signal)[i] == Some(1) <==> signal[i - 1] == 0 && signal[i] == 1
    ensures Positions(signal)[i] == Some(-1) <==> signal[i - 1] == 1 && signal[i] == 0
  {
  }

  /** The positions summed over bars 1..i. */
  function NetPosition(pos: seq<Option<int>>, i: nat): int
    requires i < |pos|
  {
    if i == 0 then 0 else NetPosition(pos, i - 1) + (if pos[i].Some? then pos[i].value else 0)
  }

  /** The positions telescope: their running total is the change of the signal since bar 0. */
  lemma {:induction false} PositionsTelescope(signal: seq<int>, i: nat)
    requires i < |signal|
    ensures NetPosition(Positions(signal), i) == signal[i] - signal[0]
  {
    if i > 0 {
      PositionsTelescope(signal, i - 1);
    }
  }

  /** Between two bars where a 0/1 signal differs, a bar where it leaves its first value. */
  lemma {:induction false} LeavesBetween(signal: seq<int>, i: nat, j: nat) returns (k: nat)
    requires Binary(signal) && i < j < |signal| && signal[i] != signal[j]
    ensures i < k <= j && signal[k - 1] == signal[i] && signal[k] != signal[i]
  {
    if signal[j - 1] == signal[i] {
      k := j;
    } else {
      k := LeavesBetween(signal, i, j - 1);
    }
  }

  /** Buys and sells alternate: between two buys there is a sell, and between two sells a buy. */
  lemma TradesAlternate(signal: seq<int>, i: nat, j: nat)
    requires Binary(signal) && 1 <= i < j < |signal|
    requires Positions(signal)[i] == Positions(signal)[j] && Positions(signal)[i].value != 0
    ensures exists k :: i < k < j && Positions(signal)[k] == Some(-Positions(signal)[i].value)
  {
    var k := OppositeTrade(signal, i, j);
  }

  lemma OppositeTrade(signal: seq<int>, i: nat, j: nat) returns (k: nat)
    requires Binary(signal) && 1 <= i < j < |signal|
    requires Positions(signal)[i] == Positions(signal)[j] && Positions(signal)[i].value != 0
    ensures i < k < j && Positions(signal)[k] == Some(-Positions(signal)[i].value)
  {
    PositionsAreTrades(signal, i);
    PositionsAreTrades(signal, j);
    k := LeavesBetween(signal, i, j - 1);
    PositionsAreTrades(signal, k);
  }

  /** While every earlier position is 0, a signal that starts at 0 is still 0. */
  lemma {:induction false} FlatSoFar(signal: seq<int>, i: nat)
    requires 1 <= i < |signal| && signal[0] == 0
    requires forall k :: 1 <= k < i ==> Positions(signal)[k] == Some(0)
    ensures signal[i - 1] == 0
  {
    if i > 1 {
      FlatSoFar(signal, i - 1);
      assert Positions(signal)[i - 1] == Some(signal[i - 1] - signal[i - 2]);
    }
  }

  /** Over a 0/1 signal that starts at 0, the first trade is a buy. */
  lemma FirstTradeIsBuy(signal: seq<int>, i: nat)
    requires Binary(signal) && 1 <= i < |signal| && signal[0] == 0
    requires forall k :: 1 <= k < i ==> Positions(signal)[k] == Some(0)
    requires Positions(signal)[i] != Some(0)
    ensures Positions(signal)[i] == Some(1)
  {
    FlatSoFar(signal, i);
  }

  // ---------------------------------------------------------------------------
  // The output frame
  // ---------------------------------------------------------------------------

  /** One row of the returned frame. */
  datatype Row = Row(close: Option<real>, shortSma: Option<real>, longSma: Option<real>,
                     signal: int, position: Option<int>)

  function SignalOf(s: SimpleStrategy): (sig: seq<int>)
    ensures |sig| == |s.closes|
  {
    Signals(Sma(s.closes, s.shortWindow), Sma(s.closes, s.longWindow), s.shortWindow)
  }

  /** The frame `execute` returns: one row per bar, in bar order. */
  function Frame(s: SimpleStrategy): (rows: seq<Row>)
    ensures |rows| == |s.closes|
    ensures forall i :: 0 <= i < |rows| ==> rows[i].close == s.closes[i]
  {
    var shortSma := Sma(s.closes, s.shortWindow);
    var longSma := Sma(s.closes, s.longWindow);
    var signal := SignalOf(s);
    var position := Positions(signal);
    seq(|s.closes|, i requires 0 <= i < |s.closes| =>
      Row(s.closes[i], shortSma[i], longSma[i], signal[i], position[i]))
  }

  /** `execute`: the signal column is filled in place, the rest are column expressions. */
  method Execute(s: SimpleStrategy) returns (rows: seq<Row>)
    ensures rows == Frame(s)
  {
    var shortSma := Sma(s.closes, s.shortWindow);
    var longSma := Sma(s.closes, s.longWindow);
    var signal := FillSignal(shortSma, longSma, s.shortWindow);
    var sig := signal[..];
    var position := Positions(sig);
    rows := seq(|s.closes|, i requires 0 <= i < |s.closes| =>
      Row(s.closes[i], shortSma[i], longSma[i], sig[i], position[i]));
  }

  /** Each row carries the two rolling means of its bar, its signal and the signal's change. */
  lemma FrameColumns(s: SimpleStrategy, i: nat)
    requires i < |s.closes|
    ensures Frame(s)[i].shortSma == RollingMean(s.closes, s.shortWindow, i)
    ensures Frame(s)[i].longSma == RollingMean(s.closes, s.longWindow, i)
    ensures Frame(s)[i].signal == SignalOf(s)[i]
    ensures Frame(s)[i].position == Positions(SignalOf(s))[i]
  {
  }

  /**
   * The signal of a row is 0 or 1; it is 0 before bar `shortWindow`; from there
   * on it is 1 exactly when both averages are defined and the short one is above.
   */
  lemma SignalRule(s: SimpleStrategy, i: nat)
    requires i < |s.closes|
    ensures Frame(s)[i].signal == 0 || Frame(s)[i].signal == 1
    ensures i < s.shortWindow ==> Frame(s)[i].signal == 0
    ensures s.shortWindow <= i ==>
      (Frame(s)[i].signal == 1 <==>
         && RollingMean(s.closes, s.shortWindow, i).Some?
         && RollingMean(s.closes, s.longWindow, i).Some?
         && RollingMean(s.closes, s.shortWindow, i).value > RollingMean(s.closes, s.longWindow, i).value)
  {
  }

  /** A raised signal needs both windows full of present closes. */
  lemma SignalNeedsFullWindows(s: SimpleStrategy, i: nat)
    requires i < |s.closes| && Frame(s)[i].signal == 1
    ensures 1 <= s.shortWindow <= i && 1 <= s.longWindow <= i + 1
    ensures AllPresent(s.closes[i + 1 - s.shortWindow..i + 1])
    ensures AllPresent(s.closes[i + 1 - s.longWindow..i + 1])
  {
    SignalRule(s, i);
  }

  /** The signal starts at 0: at bar 0 either the bar is before `shortWindow` or the short window is empty. */
  lemma SignalStartsFlat(s: SimpleStrategy)
    requires |s.closes| > 0
    ensures Frame(s)[0].signal == 0
  {
    SignalRule(s, 0);
  }

  /** With equal windows the averages coincide and the signal never rises. */
  lemma EqualWindowsNeverSignal(s: SimpleStrategy, i: nat)
    requires i < |s.closes| && s.shortWindow == s.longWindow
    ensures Frame(s)[i].signal == 0
    ensures i >= 1 ==> Frame(s)[i].position == Some(0)
  {
    SignalRule(s, i);
    if i >= 1 {
      SignalRule(s, i - 1);
    }
  }

  /** Positions of the frame are trades: -1, 0 or +1, nonzero exactly where the signal changes. */
  lemma FramePositions(s: SimpleStrategy, i: nat)
    requires 1 <= i < |s.closes|
    ensures Frame(s)[i].position.value in {-1, 0, 1}
    ensures Frame(s)[i].position.value != 0 <==> Frame(s)[i].signal != Frame(s)[i - 1].signal
  {
    PositionsAreTrades(SignalOf(s), i);
  }

  /** The positions of the frame, summed through bar `i`, give the signal held at bar `i`. */
  lemma HoldingIsNetPosition(s: SimpleStrategy, i: nat)
    requires i < |s.closes|
    ensures NetPosition(Positions(SignalOf(s)), i) == Frame(s)[i].signal
  {
    PositionsTelescope(SignalOf(s), i);
    SignalStartsFlat(s);
  }

  /** No trade of either kind happens before bar `shortWindow`; a buy needs a full long window. */
  lemma NoEarlyTrade(s: SimpleStrategy, i: nat)
    requires 1 <= i < |s.closes|
    ensures i < s.shortWindow ==> Frame(s)[i].position == Some(0)
    ensures Frame(s)[i].position == Some(1) ==> s.shortWindow <= i && s.longWindow <= i + 1
  {
    SignalRule(s, i);
    SignalRule(s, i - 1);
    if Frame(s)[i].position == Some(1) {
      PositionsAreTrades(SignalOf(s), i);
      SignalNeedsFullWindows(s, i);
    }
  }

  /** The strategy's signal is a 0/1 signal that starts at 0, so the signal lemmas apply to it. */
  lemma StrategySignalShape(s: SimpleStrategy)
    ensures Binary(SignalOf(s))
    ensures |s.closes| > 0 ==> SignalOf(s)[0] == 0
  {
    if |s.closes| > 0 {
      SignalStartsFlat(s);
    }
  }

  /** With the default windows no buy happens before bar 50, nor before the 300th bar. */
  lemma DefaultWindowsNoEarlyBuy(closes: seq<Option<real>>, i: nat)
    requires 1 <= i < |closes|
    requires Frame(NewStrategy(closes))[i].position == Some(1)
    ensures 50 <= i && 299 <= i
  {
    NoEarlyTrade(NewStrategy(closes), i);
  }
}
