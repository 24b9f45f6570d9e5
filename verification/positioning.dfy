/**
 * Positioning error bounds from the log-distance path-loss model
 * d = 10^((rssiAt1m - rssi) / (10 n)), evaluated at a device's mean signal
 * strength and at one standard deviation either side of it. The power of ten is
 * a parameter: the ordering of the three distances follows from the exponent
 * alone, for any strictly increasing function in its place.
 */
module Positioning {
  import opened Capture
  import opened Fingerprint
  import opened Variance
  import opened Outcomes

  /** `f` preserves strict order, as x |-> 10^x does. */
  ghost predicate StrictlyIncreasing(f: real -> real) {
    forall x, y :: x < y ==> f(x) < f(y)
  }

  /** The exponent of the path-loss model for a received strength of `rssi`. */
  function PathLossExponent(rssiAt1m: real, rssi: real, n: real): real
    requires n != 0.0
  {
    (rssiAt1m - rssi) / (10.0 * n)
  }

  /** With a positive path-loss exponent, a stronger signal gives a strictly
      smaller model exponent. */
  lemma ExponentDecreasing(rssiAt1m: real, x: real, y: real, n: real)
    requires n > 0.0 && x < y
    ensures PathLossExponent(rssiAt1m, y, n) < PathLossExponent(rssiAt1m, x, n)
  {
    var k := 10.0 * n;
    assert k > 0.0;
    assert (rssiAt1m - y) / k < (rssiAt1m - x) / k by {
      assert (rssiAt1m - x) / k - (rssiAt1m - y) / k == (y - x) / k;
    }
  }

  /** With a negative path-loss exponent the model runs the other way: a stronger
      signal gives a strictly larger exponent. */
  lemma ExponentIncreasingWhenNegative(rssiAt1m: real, x: real, y: real, n: real)
    requires n < 0.0 && x < y
    ensures PathLossExponent(rssiAt1m, x, n) < PathLossExponent(rssiAt1m, y, n)
  {
    var k := 10.0 * n;
    assert k < 0.0;
    assert (rssiAt1m - y) / k - (rssiAt1m - x) / k == (x - y) / k;
    assert (x - y) / k > 0.0;
  }

  /** The exponents at one standard deviation either side of the mean bracket
      the exponent at the mean, in the order the sign of `n` dictates. */
  lemma ExponentsAroundMean(mean: real, std: real, rssiAt1m: real, n: real)
    requires n != 0.0
    ensures n > 0.0 && std > 0.0 ==>
              PathLossExponent(rssiAt1m, mean + std, n) < PathLossExponent(rssiAt1m, mean, n)
                < PathLossExponent(rssiAt1m, mean - std, n)
    ensures n < 0.0 && std > 0.0 ==>
              PathLossExponent(rssiAt1m, mean - std, n) < PathLossExponent(rssiAt1m, mean, n)
                < PathLossExponent(rssiAt1m, mean + std, n)
  {
    if std > 0.0 {
      if n > 0.0 {
        ExponentDecreasing(rssiAt1m, mean - std, mean, n);
        ExponentDecreasing(rssiAt1m, mean, mean + std, n);
      } else {
        ExponentIncreasingWhenNegative(rssiAt1m, mean - std, mean, n);
        ExponentIncreasingWhenNegative(rssiAt1m, mean, mean + std, n);
      }
    }
  }

  /** The positioning error row of one logical device. */
  datatype ErrorBound = ErrorBound(
    deviceId: int,
    rssiMean: real,
    rssiStd: real,
    dEstimated: real,
    dUpper: real,
    dLower: real,
    errorUpper: real,
    errorLower: real)

  /** Distances at the mean and at one standard deviation below (farther) and
      above (nearer) it, and the two error margins. */
  function DeviceErrorBound(d: int, mean: real, std: real, rssiAt1m: real, n: real, pow10: real -> real): (b: ErrorBound)
    requires n != 0.0
    ensures b.deviceId == d && b.rssiMean == mean && b.rssiStd == std
    ensures b.errorUpper == b.dUpper - b.dEstimated && b.errorLower == b.dEstimated - b.dLower
    ensures StrictlyIncreasing(pow10) && n > 0.0 && std >= 0.0 ==>
              b.dLower <= b.dEstimated <= b.dUpper && b.errorUpper >= 0.0 && b.errorLower >= 0.0
    ensures StrictlyIncreasing(pow10) && n > 0.0 && std > 0.0 ==>
              b.dLower < b.dEstimated < b.dUpper
    ensures StrictlyIncreasing(pow10) && n < 0.0 && std > 0.0 ==>
              b.dUpper < b.dEstimated < b.dLower && b.errorUpper < 0.0 && b.errorLower < 0.0
    ensures mean == rssiAt1m ==> b.dEstimated == pow10(0.0)
  {
    var est := pow10(PathLossExponent(rssiAt1m, mean, n));
    var upper := pow10(PathLossExponent(rssiAt1m, mean - std, n));
    var lower := pow10(PathLossExponent(rssiAt1m, mean + std, n));
    ExponentsAroundMean(mean, std, rssiAt1m, n);
    ErrorBound(d, mean, std, est, upper, lower, upper - est, est - lower)
  }

  /** Sum of a sequence of signal strengths. */
  function SumRssi(xs: seq<int>): int {
    if |xs| == 0 then 0 else SumRssi(xs[..|xs| - 1]) + xs[|xs| - 1]
  }

  /** A sum of strengths each at least `lo` is at least `lo` times their number. */
  lemma {:induction false} SumAtLeast(xs: seq<int>, lo: int)
    requires forall i :: 0 <= i < |xs| ==> lo <= xs[i]
    ensures |xs| * lo <= SumRssi(xs)
  {
    if |xs| > 0 {
      SumAtLeast(xs[..|xs| - 1], lo);
    }
  }

  /** A sum of strengths each at most `hi` is at most `hi` times their number. */
  lemma {:induction false} SumAtMost(xs: seq<int>, hi: int)
    requires forall i :: 0 <= i < |xs| ==> xs[i] <= hi
    ensures SumRssi(xs) <= |xs| * hi
  {
    if |xs| > 0 {
      SumAtMost(xs[..|xs| - 1], hi);
    }
  }

  /** Arithmetic mean of a non-empty sequence of signal strengths: it lies
      between the weakest and the strongest of them, and a constant signal is
      its own mean. */
  function Mean(xs: seq<int>): (r: real)
    requires |xs| > 0
    ensures Least(xs) as real <= r <= Greatest(xs) as real
    ensures (forall i :: 0 <= i < |xs| ==> xs[i] == xs[0]) ==> r == xs[0] as real
  {
    var total, count := SumRssi(xs), |xs|;
    SumAtLeast(xs, Least(xs));
    SumAtMost(xs, Greatest(xs));
    MeanBetween(total, count, Least(xs), Greatest(xs));
    total as real / count as real
  }

  /** Dividing a total that lies between `count` times `lo` and `count` times
      `hi` by a positive `count` gives a value between `lo` and `hi`. */
  lemma MeanBetween(total: int, count: int, lo: int, hi: int)
    requires count > 0 && count * lo <= total <= count * hi
    ensures lo as real <= total as real / count as real <= hi as real
  {
    var c := count as real;
    assert (count * lo) as real == c * lo as real;
    assert (count * hi) as real == c * hi as real;
    assert total as real / c - lo as real == (total as real - c * lo as real) / c;
    assert hi as real - total as real / c == (c * hi as real - total as real) / c;
  }

  /** The error row of a labelled device, from the mean and spread of its
      packets' signal strengths. */
  function DeviceRow(labeled: seq<LabeledPacket>, d: int, rssiAt1m: real, n: real,
                     pow10: real -> real, stdDev: seq<int> -> real): (b: ErrorBound)
    requires n != 0.0 && |DevicePackets(labeled, d)| > 0
    ensures b.deviceId == d
    ensures b.rssiMean == Mean(Rssis(DevicePackets(labeled, d)))
    ensures b.rssiStd == stdDev(Rssis(DevicePackets(labeled, d)))
    ensures exists i :: 0 <= i < |labeled| && labeled[i].logicalDevice == d && labeled[i].packet.rssi as real <= b.rssiMean
    ensures exists i :: 0 <= i < |labeled| && labeled[i].logicalDevice == d && b.rssiMean <= labeled[i].packet.rssi as real
    ensures StrictlyIncreasing(pow10) && n > 0.0 && b.rssiStd >= 0.0 ==>
              b.dLower <= b.dEstimated <= b.dUpper && b.errorUpper >= 0.0 && b.errorLower >= 0.0
  {
    var xs := Rssis(DevicePackets(labeled, d));
    DeviceStrength(labeled, d, Least(xs));
    DeviceStrength(labeled, d, Greatest(xs));
    DeviceErrorBound(d, Mean(xs), stdDev(xs), rssiAt1m, n, pow10)
  }

  /** A strength among a device's packets is the strength of a packet labelled
      with that device. */
  lemma DeviceStrength(labeled: seq<LabeledPacket>, d: int, x: int)
    requires x in Rssis(DevicePackets(labeled, d))
    ensures exists i :: 0 <= i < |labeled| && labeled[i].logicalDevice == d && labeled[i].packet.rssi == x
  {
    var own := DevicePackets(labeled, d);
    var k :| 0 <= k < |own| && Rssis(own)[k] == x;
    assert own[k] in own;
    var i :| 0 <= i < |labeled| && labeled[i] == LabeledPacket(own[k], d);
  }

  /** The error rows of the listed devices, in list order, each carrying the
      mean and spread of its own packets' strengths and, with a positive
      exponent, ordered distances. */
  function ErrorRows(labeled: seq<LabeledPacket>, ids: seq<int>, rssiAt1m: real, n: real,
                     pow10: real -> real, stdDev: seq<int> -> real): (rows: seq<ErrorBound>)
    requires n != 0.0
    requires forall j :: 0 <= j < |ids| ==> |DevicePackets(labeled, ids[j])| > 0
    ensures |rows| == |ids|
    ensures forall j :: 0 <= j < |rows| ==>
              && rows[j].deviceId == ids[j]
              && rows[j].rssiMean == Mean(Rssis(DevicePackets(labeled, ids[j])))
              && rows[j].rssiStd == stdDev(Rssis(DevicePackets(labeled, ids[j])))
    ensures StrictlyIncreasing(pow10) && n > 0.0 ==> forall j :: 0 <= j < |rows| ==>
              rows[j].rssiStd >= 0.0 ==> rows[j].dLower <= rows[j].dEstimated <= rows[j].dUpper
  {
    seq(|ids|, j requires 0 <= j < |ids| => DeviceRow(labeled, ids[j], rssiAt1m, n, pow10, stdDev))
  }

  /** Positioning error bounds for every non-noise logical device, in order of
      first appearance. The spread statistic is a parameter. With a zero
      path-loss exponent the model's division has no finite value, so any device
      makes the result undefined; with no device nothing is divided. */
  function PositioningErrors(labeled: seq<LabeledPacket>, rssiAt1m: real, n: real,
                             pow10: real -> real, stdDev: seq<int> -> real): (r: Option<seq<ErrorBound>>)
    ensures r.None? <==> n == 0.0 && |DeviceIds(labeled)| > 0
    ensures r.Some? ==> |r.value| == |DeviceIds(labeled)|
    ensures r.Some? ==> forall j :: 0 <= j < |r.value| ==>
              && r.value[j].deviceId == DeviceIds(labeled)[j]
              && r.value[j].rssiMean == Mean(Rssis(DevicePackets(labeled, DeviceIds(labeled)[j])))
              && r.value[j].rssiStd == stdDev(Rssis(DevicePackets(labeled, DeviceIds(labeled)[j])))
    ensures r.Some? && StrictlyIncreasing(pow10) && n > 0.0 ==> forall j :: 0 <= j < |r.value| ==>
              r.value[j].rssiStd >= 0.0 ==> r.value[j].dLower <= r.value[j].dEstimated <= r.value[j].dUpper
  {
    var ids := DeviceIds(labeled);
    if |ids| == 0 then Some([])
    else if n == 0.0 then None
    else
      assert forall j :: 0 <= j < |ids| ==> |DevicePackets(labeled, ids[j])| > 0 by {
        forall j | 0 <= j < |ids| ensures |DevicePackets(labeled, ids[j])| > 0 {
          assert ids[j] in ids;
          DevicePacketsNonEmpty(labeled, ids[j]);
        }
      }
      Some(ErrorRows(labeled, ids, rssiAt1m, n, pow10, stdDev))
  }

  /** Mean -65 dBm, spread 3 dBm, reference -59 dBm, exponent 2.5: the distance
      is 10^0.24 (about 1.74 m), bracketed by 10^0.12 (about 1.32 m) and
      10^0.36 (about 2.29 m). */
  lemma IndoorExample(pow10: real -> real)
    requires StrictlyIncreasing(pow10)
    ensures DeviceErrorBound(0, -65.0, 3.0, -59.0, 2.5, pow10).dEstimated == pow10(0.24)
    ensures DeviceErrorBound(0, -65.0, 3.0, -59.0, 2.5, pow10).dUpper == pow10(0.36)
    ensures DeviceErrorBound(0, -65.0, 3.0, -59.0, 2.5, pow10).dLower == pow10(0.12)
    ensures DeviceErrorBound(0, -65.0, 3.0, -59.0, 2.5, pow10).dLower
          < DeviceErrorBound(0, -65.0, 3.0, -59.0, 2.5, pow10).dEstimated
          < DeviceErrorBound(0, -65.0, 3.0, -59.0, 2.5, pow10).dUpper
  {
    assert PathLossExponent(-59.0, -65.0, 2.5) == 0.24;
    assert PathLossExponent(-59.0, -65.0 - 3.0, 2.5) == 0.36;
    assert PathLossExponent(-59.0, -65.0 + 3.0, 2.5) == 0.12;
  }
}
