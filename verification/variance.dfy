/**
 * Per-logical-device selection for the variance summary: the devices are the
 * distinct labels on the packets in order of first appearance, with the noise
 * label skipped; each gets one record with its packet and address counts and
 * the short-term subset, the packets that follow their predecessor by less than
 * a minute. The short-term statistic is undefined unless that subset has more
 * than ten packets.
 */
module Variance {
  import opened Capture
  import opened Fingerprint

  const ShortTermWindowSeconds := 60
  const MinShortTermPackets := 10

  /** The short-term spread of a device: undefined (NaN), or defined over the
      signal strengths of the short-term subset. */
  datatype ShortTermStd = NaN | Sample(rssi: seq<int>)

  /** One row of the variance summary. */
  datatype VarianceRecord = VarianceRecord(deviceId: int, nPackets: nat, nMacs: nat, shortTerm: ShortTermStd)

  /** The logical-device column of the labelled packets. */
  function DeviceColumn(labeled: seq<LabeledPacket>): (r: seq<int>)
    ensures |r| == |labeled|
    ensures forall i :: 0 <= i < |labeled| ==> r[i] == labeled[i].logicalDevice
  {
    seq(|labeled|, i requires 0 <= i < |labeled| => labeled[i].logicalDevice)
  }

  /** `d` labels some packet. */
  predicate Labels(labeled: seq<LabeledPacket>, d: int) {
    exists i :: 0 <= i < |labeled| && labeled[i].logicalDevice == d
  }

  /** The elements other than the noise label, in order. */
  function WithoutNoise(ids: seq<int>): (r: seq<int>)
    ensures forall i :: 0 <= i < |r| ==> r[i] != Noise && r[i] in ids
    ensures forall i :: 0 <= i < |ids| && ids[i] != Noise ==> ids[i] in r
    ensures Distinct(ids) ==> Distinct(r)
  {
    if |ids| == 0 then []
    else
      var rest := WithoutNoise(ids[1..]);
      assert forall i :: 1 <= i < |ids| ==> ids[i] == ids[1..][i - 1];
      if ids[0] == Noise then rest else [ids[0]] + rest
  }

  /** Skipping noise deletes exactly the noise labels: the result keeps every
      other element, as often as it occurs and in its original order. */
  lemma {:induction false} WithoutNoiseExact(ids: seq<int>)
    ensures Subsequence(WithoutNoise(ids), ids)
    ensures forall x :: multiset(WithoutNoise(ids))[x] == if x == Noise then 0 else multiset(ids)[x]
  {
    if |ids| > 0 {
      WithoutNoiseExact(ids[1..]);
      assert ids == [ids[0]] + ids[1..];
      if ids[0] != Noise {
        assert WithoutNoise(ids)[1..] == WithoutNoise(ids[1..]);
      }
    }
  }

  /** The logical devices a per-device loop visits: each distinct label on the
      packets, in order of first appearance, skipping noise. */
  function DeviceIds(labeled: seq<LabeledPacket>): (r: seq<int>)
    ensures Distinct(r)
    ensures forall d :: d in r <==> d != Noise && Labels(labeled, d)
    ensures (forall i :: 0 <= i < |labeled| ==> labeled[i].logicalDevice >= Noise) ==>
              forall j :: 0 <= j < |r| ==> r[j] >= 0
  {
    var column := DeviceColumn(labeled);
    var r := WithoutNoise(Unique(column));
    assert forall d :: d in r <==> d != Noise && Labels(labeled, d) by {
      forall d ensures d in r <==> d != Noise && Labels(labeled, d) {
        if d in r {
          var k :| 0 <= k < |column| && column[k] == d;
        }
        if d != Noise && Labels(labeled, d) {
          var k :| 0 <= k < |labeled| && labeled[k].logicalDevice == d;
          assert column[k] in Unique(column);
        }
      }
    }
    r
  }

  /** The packets labelled `d`, in capture order. */
  function DevicePackets(labeled: seq<LabeledPacket>, d: int): (r: seq<Packet>)
    ensures |r| <= |labeled|
    ensures forall p :: p in r <==> exists i :: 0 <= i < |labeled| && labeled[i] == LabeledPacket(p, d)
  {
    if |labeled| == 0 then []
    else
      var n := |labeled| - 1;
      var prev := DevicePackets(labeled[..n], d);
      assert forall i :: 0 <= i < n ==> labeled[..n][i] == labeled[i];
      prev + (if labeled[n].logicalDevice == d then [labeled[n].packet] else [])
  }

  /** The packets of `d` are those labelled `d`, each as often as it is
      labelled `d` in the input. */
  lemma {:induction false} DevicePacketsCounts(labeled: seq<LabeledPacket>, d: int)
    ensures forall p :: multiset(DevicePackets(labeled, d))[p] == multiset(labeled)[LabeledPacket(p, d)]
  {
    if |labeled| > 0 {
      var n := |labeled| - 1;
      DevicePacketsCounts(labeled[..n], d);
      assert labeled == labeled[..n] + [labeled[n]];
      var tail := if labeled[n].logicalDevice == d then [labeled[n].packet] else [];
      assert DevicePackets(labeled, d) == DevicePackets(labeled[..n], d) + tail;
      forall p ensures multiset(DevicePackets(labeled, d))[p] == multiset(labeled)[LabeledPacket(p, d)] {
        assert multiset(labeled)[LabeledPacket(p, d)]
            == multiset(labeled[..n])[LabeledPacket(p, d)] + multiset([labeled[n]])[LabeledPacket(p, d)];
      }
    }
  }

  /** A label has packets exactly when it labels some packet. */
  lemma DevicePacketsNonEmpty(labeled: seq<LabeledPacket>, d: int)
    ensures |DevicePackets(labeled, d)| > 0 <==> Labels(labeled, d)
  {
    if Labels(labeled, d) {
      var i :| 0 <= i < |labeled| && labeled[i].logicalDevice == d;
      assert labeled[i] == LabeledPacket(labeled[i].packet, d);
      assert labeled[i].packet in DevicePackets(labeled, d);
    }
  }

  /** The packet at index `i` of `s` follows its predecessor by less than the
      short-term window. */
  predicate FollowsClosely(s: seq<Packet>, i: int) {
    1 <= i < |s| && s[i].time - s[i - 1].time < ShortTermWindowSeconds
  }

  /** The indices below `k` of packets that follow their predecessor closely. */
  ghost function CloseIndices(s: seq<Packet>, k: nat): set<int> {
    set i | 1 <= i < k && FollowsClosely(s, i)
  }

  /** Extending the index range by one adds at most that index. */
  lemma CloseIndicesStep(s: seq<Packet>, k: nat)
    requires k >= 1
    ensures |CloseIndices(s, k + 1)| == |CloseIndices(s, k)| + (if FollowsClosely(s, k) then 1 else 0)
  {
    if FollowsClosely(s, k) {
      assert CloseIndices(s, k + 1) == CloseIndices(s, k) + {k};
      AddLargerIndex(CloseIndices(s, k), k);
    } else {
      assert CloseIndices(s, k + 1) == CloseIndices(s, k);
    }
  }

  /** The packets below index `k` that follow their predecessor closely, in
      order; the first packet has no predecessor and is never among them. */
  function CloseFollowers(s: seq<Packet>, k: nat): (r: seq<Packet>)
    requires k <= |s|
    ensures |r| == |CloseIndices(s, k)|
    ensures forall p :: p in r ==> exists i :: 1 <= i < k && FollowsClosely(s, i) && s[i] == p
    ensures forall i :: 1 <= i < k && FollowsClosely(s, i) ==> s[i] in r
    decreases k
  {
    if k < 2 then
      assert CloseIndices(s, k) == {};
      []
    else
      var prev := CloseFollowers(s, k - 1);
      CloseIndicesStep(s, k - 1);
      if FollowsClosely(s, k - 1) then prev + [s[k - 1]] else prev
  }

  /** The close-follower indices below `k` that hold packet `p`. */
  ghost function CloseIndicesOf(s: seq<Packet>, k: nat, p: Packet): set<int> {
    set i | 1 <= i < k && FollowsClosely(s, i) && s[i] == p
  }

  /** The short-term subset holds each packet once per close-follower index
      holding it, and nothing else. */
  lemma {:induction false} CloseFollowersCounts(s: seq<Packet>, k: nat)
    requires k <= |s|
    ensures forall p :: multiset(CloseFollowers(s, k))[p] == |CloseIndicesOf(s, k, p)|
    decreases k
  {
    if k >= 2 {
      CloseFollowersCounts(s, k - 1);
      forall p ensures multiset(CloseFollowers(s, k))[p] == |CloseIndicesOf(s, k, p)| {
        CloseIndicesOfStep(s, k - 1, p);
      }
    } else {
      forall p ensures CloseIndicesOf(s, k, p) == {} {
      }
    }
  }

  /** Extending the index range by one adds index `k` exactly when it is a
      close follower holding `p`. */
  lemma CloseIndicesOfStep(s: seq<Packet>, k: nat, p: Packet)
    requires k >= 1
    ensures |CloseIndicesOf(s, k + 1, p)| == |CloseIndicesOf(s, k, p)| + (if FollowsClosely(s, k) && s[k] == p then 1 else 0)
  {
    if FollowsClosely(s, k) && s[k] == p {
      assert CloseIndicesOf(s, k + 1, p) == CloseIndicesOf(s, k, p) + {k};
      AddLargerIndex(CloseIndicesOf(s, k, p), k);
    } else {
      assert CloseIndicesOf(s, k + 1, p) == CloseIndicesOf(s, k, p);
    }
  }

  /** The short-term statistic of a device's time-ordered packets: defined only
      when more than ten packets follow their predecessor by less than a minute,
      and then over exactly those packets' signal strengths. */
  function ShortTerm(sorted: seq<Packet>): (st: ShortTermStd)
    ensures st.Sample? <==> |CloseIndices(sorted, |sorted|)| > MinShortTermPackets
    ensures st.Sample? ==> |st.rssi| == |CloseIndices(sorted, |sorted|)|
    ensures st.Sample? ==> forall j :: 0 <= j < |st.rssi| ==>
              exists i :: FollowsClosely(sorted, i) && sorted[i].rssi == st.rssi[j]
  {
    var close := CloseFollowers(sorted, |sorted|);
    if |close| > MinShortTermPackets then
      assert forall j :: 0 <= j < |close| ==> exists i :: FollowsClosely(sorted, i) && sorted[i] == close[j] by {
        forall j | 0 <= j < |close| ensures exists i :: FollowsClosely(sorted, i) && sorted[i] == close[j] {
          assert close[j] in close;
        }
      }
      Sample(Rssis(close))
    else
      NaN
  }

  /** The variance record of device `d`. */
  function DeviceVariance(labeled: seq<LabeledPacket>, d: int): (v: VarianceRecord)
    requires Labels(labeled, d)
    ensures v.deviceId == d
    ensures v.nPackets == |DevicePackets(labeled, d)| && v.nPackets >= 1
    ensures 1 <= v.nMacs <= v.nPackets
    ensures v.nMacs == |DeviceMacs(labeled, d)|
    ensures v.shortTerm == ShortTerm(SortByTime(DevicePackets(labeled, d)))
  {
    var own := DevicePackets(labeled, d);
    DevicePacketsNonEmpty(labeled, d);
    assert Observed(own, own[0].mac);
    assert own[0].mac in Macs(own);
    DeviceMacCount(labeled, d);
    VarianceRecord(d, |own|, |Macs(own)|, ShortTerm(SortByTime(own)))
  }

  /** The distinct addresses of the packets labelled `d`. */
  ghost function DeviceMacs(labeled: seq<LabeledPacket>, d: int): set<Mac> {
    set i | 0 <= i < |labeled| && labeled[i].logicalDevice == d :: labeled[i].packet.mac
  }

  /** The addresses listed for a device are its distinct addresses. */
  lemma DeviceMacCount(labeled: seq<LabeledPacket>, d: int)
    ensures |Macs(DevicePackets(labeled, d))| == |DeviceMacs(labeled, d)|
  {
    var own := DevicePackets(labeled, d);
    var macs := Macs(own);
    forall m ensures m in macs <==> m in DeviceMacs(labeled, d) {
      if m in macs {
        var j :| 0 <= j < |own| && own[j].mac == m;
        assert own[j] in own;
        var i :| 0 <= i < |labeled| && labeled[i] == LabeledPacket(own[j], d);
      }
      if m in DeviceMacs(labeled, d) {
        var i :| 0 <= i < |labeled| && labeled[i].logicalDevice == d && labeled[i].packet.mac == m;
        assert labeled[i] == LabeledPacket(labeled[i].packet, d);
        var j :| 0 <= j < |own| && own[j] == labeled[i].packet;
        assert Observed(own, m);
      }
    }
    assert (set x | x in macs) == DeviceMacs(labeled, d);
    DistinctCardinality(macs);
  }

  /** The variance summary: exactly one record per non-noise logical device, in
      order of first appearance, and none for the noise label. */
  function AnalyzeVariance(labeled: seq<LabeledPacket>): (r: seq<VarianceRecord>)
    ensures |r| == |DeviceIds(labeled)|
    ensures forall j :: 0 <= j < |r| ==> r[j].deviceId == DeviceIds(labeled)[j]
    ensures forall j :: 0 <= j < |r| ==> r[j] == DeviceVariance(labeled, r[j].deviceId)
  {
    var ids := DeviceIds(labeled);
    assert forall j :: 0 <= j < |ids| ==> ids[j] in ids;
    seq(|ids|, j requires 0 <= j < |ids| => DeviceVariance(labeled, ids[j]))
  }

  /** Each non-noise label on the packets has exactly one record, the noise
      label has none, and every record counts at least one packet and at least
      one address. */
  lemma OneRecordPerDevice(labeled: seq<LabeledPacket>)
    ensures forall d :: (exists j :: 0 <= j < |AnalyzeVariance(labeled)| && AnalyzeVariance(labeled)[j].deviceId == d)
                        <==> d != Noise && Labels(labeled, d)
    ensures forall j, k :: 0 <= j < k < |AnalyzeVariance(labeled)| ==>
              AnalyzeVariance(labeled)[j].deviceId != AnalyzeVariance(labeled)[k].deviceId
    ensures forall j :: 0 <= j < |AnalyzeVariance(labeled)| ==>
              1 <= AnalyzeVariance(labeled)[j].nMacs <= AnalyzeVariance(labeled)[j].nPackets
  {
    var r := AnalyzeVariance(labeled);
    var ids := DeviceIds(labeled);
    forall d ensures (exists j :: 0 <= j < |r| && r[j].deviceId == d) <==> d != Noise && Labels(labeled, d) {
      if d != Noise && Labels(labeled, d) {
        var j :| 0 <= j < |ids| && ids[j] == d;
        assert r[j].deviceId == d;
      }
    }
    forall j | 0 <= j < |r| ensures 1 <= r[j].nMacs <= r[j].nPackets {
      assert ids[j] in ids;
    }
  }

  /** After clustering, the devices the per-device loops visit are exactly the
      non-noise labels of the clustering. */
  lemma DeviceIdsAreDeviceLabels(ps: seq<Packet>, labels: seq<int>)
    requires |labels| == |Macs(ps)|
    ensures (set d | d in DeviceIds(LabelCapture(ps, labels).labeled)) == DeviceLabels(labels)
  {
    PacketLabelsAreRowLabels(ps, labels);
    LabelsOnPackets(LabelCapture(ps, labels).labeled, labels);
  }

  /** When the labels on the packets are exactly the elements of `labels`, the
      devices visited are exactly the non-noise elements of `labels`. */
  lemma LabelsOnPackets(labeled: seq<LabeledPacket>, labels: seq<int>)
    requires forall i :: 0 <= i < |labeled| ==> labeled[i].logicalDevice in labels
    requires forall j :: 0 <= j < |labels| ==> Labels(labeled, labels[j])
    ensures (set d | d in DeviceIds(labeled)) == DeviceLabels(labels)
  {
    var ids := DeviceIds(labeled);
    forall d ensures d in ids <==> d in DeviceLabels(labels) {
      if d in DeviceLabels(labels) {
        var j :| 0 <= j < |labels| && labels[j] == d;
        assert Labels(labeled, labels[j]);
      }
      if d in ids {
        var i :| 0 <= i < |labeled| && labeled[i].logicalDevice == d;
        assert labeled[i].logicalDevice in labels;
      }
    }
  }

  /** The number of logical devices reported after clustering equals the number
      of variance records produced from the labelled packets. */
  lemma DeviceCountMatchesRecords(ps: seq<Packet>, labels: seq<int>)
    requires |labels| == |Macs(ps)|
    ensures CountLogicalDevices(labels) == |AnalyzeVariance(LabelCapture(ps, labels).labeled)|
  {
    var ids := DeviceIds(LabelCapture(ps, labels).labeled);
    DeviceIdsAreDeviceLabels(ps, labels);
    DistinctCardinality(ids);
  }
}
