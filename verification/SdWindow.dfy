/**
  The sliding-window filter of the user-space bandit: two circular buffers with running
  statistics, proved equal to the plain definitions over the whole sample history.
 */
module SdWindow {
  import opened RealSums

  // ----- Plain definitions -----

  function Mean(xs: seq<real>): real
    requires xs != []
  {
    Ratio(Sum(xs), |xs| as real)
  }

  function Ratio(a: real, b: real): real
    requires b != 0.0
  {
    a / b
  }

  /** Sum of squared deviations from m. */
  function Deviation(xs: seq<real>, m: real): (r: real)
    ensures r >= 0.0
  {
    if xs == [] then 0.0 else
      Square(xs[0] - m) + Deviation(xs[1..], m)
  }

  function Square(x: real): (r: real)
    ensures r >= 0.0
  {
    assert x < 0.0 ==> x * x == (-x) * (-x);
    x * x
  }

  function Variance(xs: seq<real>): (r: real)
    requires xs != []
    ensures r >= 0.0
  {
    Deviation(xs, Mean(xs)) / |xs| as real
  }

  lemma VarianceIsRatio(xs: seq<real>)
    requires xs != []
    ensures Variance(xs) == Ratio(Deviation(xs, Mean(xs)), |xs| as real)
  {
  }

  function Zeros(n: nat): seq<real> {
    seq(n, _ => 0.0)
  }

  /** The last w values of a history padded with zeros in front. */
  function Window(history: seq<real>, w: nat): (r: seq<real>)
    ensures |r| == w
  {
    (Zeros(w) + history)[|history|..]
  }

  /** The standard deviations of all full windows, in order. */
  function Sds(history: seq<real>, w: nat, sqrt: NonNegative -> real): (r: seq<real>)
    requires w > 0
    ensures |r| == if |history| < w then 0 else |history| - w + 1
  {
    if |history| < w then []
    else Sds(history[..|history| - 1], w, sqrt) + [sqrt(Variance(history[|history| - w..]))]
  }

  /** The average of the last n values, or of all when there are fewer. */
  function MeanOfLast(xs: seq<real>, n: nat): real
    requires n > 0
  {
    if xs == [] then 0.0
    else if |xs| <= n then Mean(xs)
    else Mean(xs[|xs| - n..])
  }

  // ----- Facts about the definitions -----

  lemma {:induction false} SumZeros(n: nat)
    ensures Sum(Zeros(n)) == 0.0 && Deviation(Zeros(n), 0.0) == 0.0
  {
    if n > 0 {
      assert Zeros(n)[1..] == Zeros(n - 1);
      SumZeros(n - 1);
    }
  }

  function Squares(xs: seq<real>): real {
    if xs == [] then 0.0 else Square(xs[0]) + Squares(xs[1..])
  }

  lemma {:induction false} SquaresAppend(xs: seq<real>, ys: seq<real>)
    ensures Squares(xs + ys) == Squares(xs) + Squares(ys)
  {
    if xs == [] {
      assert xs + ys == ys;
    } else {
      assert (xs + ys)[1..] == xs[1..] + ys;
      SquaresAppend(xs[1..], ys);
    }
  }

  /** The deviation of n values with sum s and sum of squares q, from m. */
  function Expanded(q: real, s: real, n: real, m: real): real {
    q - 2.0 * m * s + n * m * m
  }

  lemma ExpandOnce(x: real, m: real, q: real, s: real, n: real)
    ensures Square(x - m) + Expanded(q, s, n, m) == Expanded(Square(x) + q, x + s, n + 1.0, m)
  {
  }

  lemma {:induction false} DeviationExpands(xs: seq<real>, m: real)
    ensures Deviation(xs, m) == Expanded(Squares(xs), Sum(xs), |xs| as real, m)
  {
    if xs == [] {
      assert Expanded(0.0, 0.0, 0.0, m) == 0.0;
    } else {
      hide Square, Expanded;
      DeviationExpands(xs[1..], m);
      assert |xs| as real == |xs[1..]| as real + 1.0;
      ExpandOnce(xs[0], m, Squares(xs[1..]), Sum(xs[1..]), |xs[1..]| as real);
    }
  }

  /** The variance is the mean of the squares less the square of the mean. */
  lemma VarianceIsMeanOfSquares(xs: seq<real>)
    requires xs != []
    ensures Variance(xs) == Ratio(Squares(xs), |xs| as real) - Square(Ratio(Sum(xs), |xs| as real))
  {
    DeviationExpands(xs, Mean(xs));
    VarianceAlgebra(Squares(xs), Sum(xs), |xs| as real);
    VarianceIsRatio(xs);
  }

  lemma VarianceAlgebra(q: real, s: real, n: real)
    requires n > 0.0
    ensures Ratio(Expanded(q, s, n, Ratio(s, n)), n) == Ratio(q, n) - Square(Ratio(s, n))
  {
    var m := s / n;
    assert s == m * n;
    assert Expanded(q, s, n, m) == q - m * m * n;
    assert (q - m * m * n) / n == q / n - m * m * n / n;
    assert m * m * n / n == m * m;
  }

  lemma WindowSlides(history: seq<real>, x: real, w: nat)
    requires w > 0
    ensures Window(history + [x], w) == Window(history, w)[1..] + [x]
  {
    assert Zeros(w) + (history + [x]) == (Zeros(w) + history) + [x];
  }

  /** Once there are w samples the window is exactly the last w of them. */
  lemma WindowFull(history: seq<real>, w: nat)
    requires |history| >= w
    ensures Window(history, w) == history[|history| - w..]
  {
  }

  /** What the code adds to the deviation when `gone` makes way for x and the mean moves on. */
  function DeviationShift(x: real, gone: real, m: real, m': real): real {
    (x - gone) * (x - m' + gone - m)
  }

  /** Replacing the oldest value by x moves mean and deviation by the amounts the code adds. */
  lemma SlideStatistics(win: seq<real>, x: real)
    requires win != []
    ensures var next := win[1..] + [x];
      && Mean(next) == Mean(win) + Ratio(x - win[0], |win| as real)
      && Deviation(next, Mean(next)) ==
           Deviation(win, Mean(win)) + DeviationShift(x, win[0], Mean(win), Mean(next))
  {
    hide Sum, Squares, Deviation, Square, Expanded, DeviationShift, Ratio;
    var next, w := win[1..] + [x], |win| as real;
    var m, m' := Mean(win), Mean(next);
    assert |next| == |win| && m == Ratio(Sum(win), w) && m' == Ratio(Sum(next), w);
    hide Mean;
    SlideSums(win, x);
    SlideAlgebra(Squares(win), Sum(win), w, win[0], x);
    DeviationExpands(win, m);
    DeviationExpands(next, m');
  }

  lemma SlideSums(win: seq<real>, x: real)
    requires win != []
    ensures var next := win[1..] + [x];
      && Sum(next) == Sum(win) - win[0] + x
      && Squares(next) == Squares(win) - Square(win[0]) + Square(x)
  {
    hide Square;
    SumAppend(win[1..], [x]);
    SquaresAppend(win[1..], [x]);
    assert Sum([x]) == x && Squares([x]) == Square(x);
  }

  lemma SlideAlgebra(q: real, s: real, w: real, gone: real, x: real)
    requires w > 0.0
    ensures var m, m' := Ratio(s, w), Ratio(s - gone + x, w);
      && m' == m + Ratio(x - gone, w)
      && Expanded(q - Square(gone) + Square(x), s - gone + x, w, m') ==
           Expanded(q, s, w, m) + DeviationShift(x, gone, m, m')
  {
    var m, m' := s / w, (s - gone + x) / w;
    var d := x - gone;
    assert s == w * m && s - gone + x == w * m' && d == w * m' - w * m;
    assert d * (m' + m) == w * m' * m' - w * m * m by { Difference(w, m, m'); }
    assert d * (x + gone) == x * x - gone * gone;
    assert d * (x - m' + gone - m) == d * (x + gone) - d * (m' + m);
    assert Expanded(q, s, w, m) == q - w * m * m;
    assert Expanded(q - Square(gone) + Square(x), s - gone + x, w, m') == q - gone * gone + x * x - w * m' * m';
  }

  lemma Difference(w: real, m: real, m': real)
    ensures (w * m' - w * m) * (m' + m) == w * m' * m' - w * m * m
  {
  }

  // ----- Circular buffers -----

  /** Reading a circular buffer from its index on gives the window, oldest value first. */
  ghost predicate Holds(buf: seq<real>, index: nat, win: seq<real>) {
    index < |buf| && buf[index..] + buf[..index] == win
  }

  function NextIndex(i: nat, w: nat): (r: nat)
    requires i < w
    ensures r == if i + 1 == w then 0 else i + 1
  {
    assert i + 1 < w ==> (i + 1) / w == 0;
    (i + 1) % w
  }

  lemma StoreSlides(buf: seq<real>, index: nat, win: seq<real>, x: real)
    requires Holds(buf, index, win)
    ensures buf[index] == win[0]
    ensures Holds(buf[index := x], NextIndex(index, |buf|), win[1..] + [x])
  {
    var next, r := NextIndex(index, |buf|), buf[index := x];
    assert win[1..] == buf[index + 1..] + buf[..index];
    assert r[..index + 1] == buf[..index] + [x];
  }

  // ----- Averages over the last values -----

  lemma GrowMean(xs: seq<real>, x: real, n: nat)
    requires |xs| < n
    ensures var old' := MeanOfLast(xs, n);
      MeanOfLast(xs + [x], n) == old' + Ratio(x - old', (|xs| + 1) as real)
  {
    SumAppend(xs, [x]);
    assert Sum([x]) == x;
    GrowAlgebra(Sum(xs), |xs| as real, x, if xs == [] then 0.0 else Mean(xs));
  }

  lemma GrowAlgebra(s: real, k: real, x: real, m: real)
    requires k >= 0.0 && s == k * m
    ensures Ratio(s + x, k + 1.0) == m + Ratio(x - m, k + 1.0)
  {
    var q, d := Ratio(s + x, k + 1.0), Ratio(x - m, k + 1.0);
    assert (k + 1.0) * q == s + x && (k + 1.0) * d == x - m;
    assert (k + 1.0) * (m + d) == k * m + m + (x - m);
    assert (k + 1.0) * (q - (m + d)) == 0.0;
  }

  /** With n or more values, the mean of the last n moves with the value that leaves. */
  lemma SlideMean(xs: seq<real>, x: real, n: nat)
    requires |xs| >= n > 0
    ensures MeanOfLast(xs + [x], n) == MeanOfLast(xs, n) + Ratio(x - Window(xs, n)[0], n as real)
  {
    WindowFull(xs, n);
    WindowFull(xs + [x], n);
    WindowSlides(xs, x, n);
    SlideStatistics(Window(xs, n), x);
    hide Mean, Ratio;
    assert |xs| == n ==> xs[|xs| - n..] == xs;
  }

  lemma NoSdsYet(history: seq<real>, w: nat, sqrt: NonNegative -> real)
    requires w > 0 && |history| < w
    ensures Sds(history, w, sqrt) == []
  {
  }

  // ----- The filter -----

  class Filter {
    const sqrt: NonNegative -> real
    const ipcBuffer: array<real>
    var ipcIndex: nat
    var ipcN: nat
    var ipcMean: real
    var ipcM2: real
    const sdBuffer: array<real>
    var sdIndex: nat
    var sdN: nat
    var sdMean: real
    ghost var history: seq<real>

    /** The IPC side: the buffer is the window of the history, mean and M2 its statistics. */
    ghost predicate IpcValid()
      reads this, ipcBuffer
    {
      var w := ipcBuffer.Length;
      && w > 0
      && Holds(ipcBuffer[..], ipcIndex, Window(history, w))
      && ipcN == (if |history| < w then |history| else w)
      && ipcMean == Mean(Window(history, w))
      && ipcM2 == Deviation(Window(history, w), ipcMean)
    }

    /** The SD side: the same over the standard deviations of all full windows. */
    ghost predicate SdValid()
      reads this, ipcBuffer, sdBuffer
    {
      ipcBuffer.Length > 0 &&
      var n, sds := sdBuffer.Length, Sds(history, ipcBuffer.Length, sqrt);
      && n > 0
      && Holds(sdBuffer[..], sdIndex, Window(sds, n))
      && sdN == (if |sds| < n then |sds| else n)
      && sdMean == MeanOfLast(sds, n)
    }

    ghost predicate Valid()
      reads this, ipcBuffer, sdBuffer
    {
      ipcBuffer != sdBuffer && IpcValid() && SdValid()
    }

    constructor (w: nat, n: nat, sqrt: NonNegative -> real)
      requires w > 0 && n > 0
      ensures Valid() && history == [] && fresh(ipcBuffer) && fresh(sdBuffer)
      ensures ipcBuffer.Length == w && sdBuffer.Length == n && this.sqrt == sqrt
    {
      this.sqrt := sqrt;
      ipcBuffer := new real[w](_ => 0.0);
      sdBuffer := new real[n](_ => 0.0);
      ipcIndex, ipcN, ipcMean, ipcM2 := 0, 0, 0.0, 0.0;
      sdIndex, sdN, sdMean := 0, 0, 0.0;
      history := [];
      new;
      SumZeros(w);
      assert ipcBuffer[..] == Zeros(w) == Window([], w);
      assert sdBuffer[..] == Zeros(n) == Window([], n);
      assert Mean(Zeros(w)) == 0.0;
    }

    /** Takes one IPC sample and returns the running mean of the standard deviations. */
    method UpdateAndFetch(ipc: real) returns (r: real)
      requires Valid()
      modifies this, ipcBuffer, sdBuffer
      ensures Valid() && history == old(history) + [ipc]
      ensures r == MeanOfLast(Sds(history, ipcBuffer.Length, sqrt), sdBuffer.Length)
    {
      hide Mean, MeanOfLast, Deviation, Ratio, Variance, Window, Holds, Sds;
      var w := ipcBuffer.Length;
      PushIpc(ipc);
      assert history[..|history| - 1] == old(history);
      if ipcN == w {
        WindowFull(history, w);
        ghost var win := history[|history| - w..];
        VarianceIsRatio(win);
        var variance := Ratio(ipcM2, w as real);
        assert variance == Variance(win);
        var sd := sqrt(variance);
        PushSd(sd);
      } else {
        NoSdsYet(history, w, sqrt);
        NoSdsYet(old(history), w, sqrt);
      }
      r := sdMean;
    }

    method PushIpc(ipc: real)
      requires IpcValid() && ipcBuffer != sdBuffer
      modifies ipcBuffer, this`ipcIndex, this`ipcN, this`ipcMean, this`ipcM2, this`history
      ensures IpcValid() && history == old(history) + [ipc]
    {
      hide Mean, Deviation, Ratio, DeviationShift;
      var w := ipcBuffer.Length;
      WindowSlides(history, ipc, w);
      StoreSlides(ipcBuffer[..], ipcIndex, Window(history, w), ipc);
      SlideStatistics(Window(history, w), ipc);
      var gone := ipcBuffer[ipcIndex];
      ipcBuffer[ipcIndex] := ipc;
      assert ipcBuffer[..] == old(ipcBuffer[..])[ipcIndex := ipc];
      ipcIndex := NextIndex(ipcIndex, w);
      if ipcN < w {
        ipcN := ipcN + 1;
      }
      var mean := ipcMean + Ratio(ipc - gone, w as real);
      ipcM2 := ipcM2 + DeviationShift(ipc, gone, ipcMean, mean);
      ipcMean := mean;
      history := history + [ipc];
    }

    /** The SD side takes the standard deviation of the window that has just become full or moved. */
    method PushSd(sd: real)
      requires ipcBuffer != sdBuffer && ipcBuffer.Length > 0 && sdBuffer.Length > 0
      requires |history| >= ipcBuffer.Length
      requires var w, n := ipcBuffer.Length, sdBuffer.Length;
        var sds := Sds(history[..|history| - 1], w, sqrt);
        && Holds(sdBuffer[..], sdIndex, Window(sds, n))
        && sdN == (if |sds| < n then |sds| else n)
        && sdMean == MeanOfLast(sds, n)
        && sd == sqrt(Variance(history[|history| - w..]))
      modifies sdBuffer, this`sdIndex, this`sdN, this`sdMean
      ensures SdValid()
    {
      hide MeanOfLast, Ratio, Variance;
      var n := sdBuffer.Length;
      ghost var sds := Sds(history[..|history| - 1], ipcBuffer.Length, sqrt);
      WindowSlides(sds, sd, n);
      StoreSlides(sdBuffer[..], sdIndex, Window(sds, n), sd);
      var gone := sdBuffer[sdIndex];
      sdBuffer[sdIndex] := sd;
      assert sdBuffer[..] == old(sdBuffer[..])[sdIndex := sd];
      sdIndex := NextIndex(sdIndex, n);
      if sdN < n {
        GrowMean(sds, sd, n);
        sdN := sdN + 1;
        sdMean := sdMean + Ratio(sd - sdMean, sdN as real);
      } else {
        SlideMean(sds, sd, n);
        sdMean := sdMean + Ratio(sd - gone, n as real);
      }
    }
  }
}
