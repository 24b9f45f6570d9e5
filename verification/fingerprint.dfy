/**
 * Fingerprint clustering around the density-based clustering call: per-address
 * aggregates, the address-to-label map built from the clustering output, the
 * label written onto every packet, and the number of logical devices reported.
 * The clustering itself is an input: one label per address row, with -1 for
 * noise.
 */
module Fingerprint {
  import opened Capture
  import opened Outcomes

  /** The label the clustering gives to addresses in no dense neighbourhood. */
  const Noise := -1

  /** The integer aggregates of one address: packet count, first and last
      capture time. */
  datatype MacFeatures = MacFeatures(mac: Mac, packetCount: nat, firstSeen: int, lastSeen: int)

  /** One packet together with the logical device its address was assigned to. */
  datatype LabeledPacket = LabeledPacket(packet: Packet, logicalDevice: int)

  /** The outcome of clustering: the per-address rows, their labels (aligned with
      the rows), and the labelled packets in capture order. */
  datatype Clustering = Clustering(features: seq<MacFeatures>, labels: seq<int>, labeled: seq<LabeledPacket>)

  /** Why clustering produced no result: there is nothing to cluster, or some
      address sent a single packet, so its sample standard deviation (one degree
      of freedom removed) is undefined and the clustering rejects the row. */
  datatype ClusterError = EmptyCapture | UndefinedSpread

  /** The least element of a non-empty sequence: the earliest of some times,
      the weakest of some signal strengths. */
  function Least(ts: seq<int>): (t: int)
    requires |ts| > 0
    ensures t in ts
    ensures forall i :: 0 <= i < |ts| ==> t <= ts[i]
  {
    if |ts| == 1 then ts[0]
    else
      var rest := Least(ts[1..]);
      assert forall i :: 1 <= i < |ts| ==> ts[i] == ts[1..][i - 1];
      if ts[0] <= rest then ts[0] else rest
  }

  /** The greatest element of a non-empty sequence: the latest of some times,
      the strongest of some signal strengths. */
  function Greatest(ts: seq<int>): (t: int)
    requires |ts| > 0
    ensures t in ts
    ensures forall i :: 0 <= i < |ts| ==> ts[i] <= t
  {
    if |ts| == 1 then ts[0]
    else
      var rest := Greatest(ts[1..]);
      assert forall i :: 1 <= i < |ts| ==> ts[i] == ts[1..][i - 1];
      if ts[0] >= rest then ts[0] else rest
  }

  /** The aggregates of an observed address: its packet count and its earliest
      and latest capture times. */
  function FeaturesOf(ps: seq<Packet>, m: Mac): (f: MacFeatures)
    requires Observed(ps, m)
    ensures f.mac == m && f.packetCount == |OfMac(ps, m)|
    ensures f.packetCount == |RowsOf(ps, m)|
  {
    var own := OfMac(ps, m);
    OfMacNonEmpty(ps, m);
    OfMacSize(ps, m);
    MacFeatures(m, |own|, Least(Times(own)), Greatest(Times(own)))
  }

  /** An address's first and last capture times are times of its own packets,
      and bracket all of them; it has at least one packet. */
  lemma FeaturesBracket(ps: seq<Packet>, m: Mac)
    requires Observed(ps, m)
    ensures FeaturesOf(ps, m).packetCount >= 1
    ensures FeaturesOf(ps, m).firstSeen <= FeaturesOf(ps, m).lastSeen
    ensures exists i :: 0 <= i < |ps| && ps[i].mac == m && ps[i].time == FeaturesOf(ps, m).firstSeen
    ensures exists i :: 0 <= i < |ps| && ps[i].mac == m && ps[i].time == FeaturesOf(ps, m).lastSeen
    ensures forall i :: 0 <= i < |ps| && ps[i].mac == m ==>
              FeaturesOf(ps, m).firstSeen <= ps[i].time <= FeaturesOf(ps, m).lastSeen
  {
    var own := OfMac(ps, m);
    OfMacNonEmpty(ps, m);
    var f := FeaturesOf(ps, m);
    assert forall i :: 0 <= i < |ps| && ps[i].mac == m ==> ps[i] in own;
    var k :| 0 <= k < |own| && Times(own)[k] == f.firstSeen;
    assert own[k] in ps;
    var l :| 0 <= l < |own| && Times(own)[l] == f.lastSeen;
    assert own[l] in ps;
    assert f.firstSeen <= Times(own)[0] <= f.lastSeen;
  }

  /** The rows for a list of observed addresses, in list order. */
  function FeatureRows(ps: seq<Packet>, macs: seq<Mac>): (r: seq<MacFeatures>)
    requires forall i :: 0 <= i < |macs| ==> Observed(ps, macs[i])
    ensures |r| == |macs|
    ensures forall i :: 0 <= i < |macs| ==> r[i] == FeaturesOf(ps, macs[i])
  {
    seq(|macs|, i requires 0 <= i < |macs| => FeaturesOf(ps, macs[i]))
  }

  /** The per-address table: one row per observed address, in order of first
      appearance. */
  function FeatureTable(ps: seq<Packet>): (r: seq<MacFeatures>)
    ensures |r| == |Macs(ps)|
    ensures forall i :: 0 <= i < |r| ==> r[i] == FeaturesOf(ps, Macs(ps)[i])
  {
    FeatureRows(ps, Macs(ps))
  }

  /** Every row of the table describes a distinct observed address with at least
      one packet, seen first no later than it is seen last. */
  lemma FeatureTableRows(ps: seq<Packet>)
    ensures forall i :: 0 <= i < |FeatureTable(ps)| ==>
              && FeatureTable(ps)[i].mac == Macs(ps)[i]
              && Observed(ps, FeatureTable(ps)[i].mac)
              && 1 <= FeatureTable(ps)[i].packetCount
              && FeatureTable(ps)[i].firstSeen <= FeatureTable(ps)[i].lastSeen
  {
    forall i | 0 <= i < |FeatureTable(ps)|
      ensures 1 <= FeatureTable(ps)[i].packetCount
      ensures FeatureTable(ps)[i].firstSeen <= FeatureTable(ps)[i].lastSeen
    {
      FeaturesBracket(ps, Macs(ps)[i]);
    }
  }

  /** Sum of the rows' packet counts. */
  function SumPacketCounts(fs: seq<MacFeatures>): nat {
    if |fs| == 0 then 0 else SumPacketCounts(fs[..|fs| - 1]) + fs[|fs| - 1].packetCount
  }

  /** Sum, over a list of addresses, of the number of packets of each. */
  function SumCounts(ps: seq<Packet>, macs: seq<Mac>): nat {
    if |macs| == 0 then 0 else SumCounts(ps, macs[..|macs| - 1]) + |OfMac(ps, macs[|macs| - 1])|
  }

  /** The rows' packet counts add up like the address groups they describe. */
  lemma {:induction false} RowsSum(ps: seq<Packet>, macs: seq<Mac>)
    requires forall i :: 0 <= i < |macs| ==> Observed(ps, macs[i])
    ensures SumPacketCounts(FeatureRows(ps, macs)) == SumCounts(ps, macs)
  {
    if |macs| > 0 {
      RowsSum(ps, macs[..|macs| - 1]);
      var r := FeatureRows(ps, macs);
      assert r[..|r| - 1] == FeatureRows(ps, macs[..|macs| - 1]);
    }
  }

  /** One more packet adds one to its address's group and nothing elsewhere. */
  lemma {:induction false} SumCountsSnoc(ps: seq<Packet>, p: Packet, macs: seq<Mac>)
    requires Distinct(macs)
    ensures SumCounts(ps + [p], macs) == SumCounts(ps, macs) + (if p.mac in macs then 1 else 0)
  {
    if |macs| > 0 {
      var init := macs[..|macs| - 1];
      SumCountsSnoc(ps, p, init);
      var m := macs[|macs| - 1];
      assert (ps + [p])[..|ps + [p]| - 1] == ps;
      assert OfMac(ps + [p], m) == OfMac(ps, m) + (if p.mac == m then [p] else []);
      assert m !in init;
      assert p.mac in macs <==> p.mac in init || p.mac == m;
    }
  }

  /** Every packet belongs to exactly one address group. */
  lemma {:induction false} GroupsCoverCapture(ps: seq<Packet>)
    ensures SumCounts(ps, Macs(ps)) == |ps|
  {
    if |ps| > 0 {
      var init := ps[..|ps| - 1];
      var p := ps[|ps| - 1];
      assert ps == init + [p];
      GroupsCoverCapture(init);
      assert MacColumn(ps) == MacColumn(init) + [p.mac];
      UniqueSnoc(MacColumn(init), p.mac);
      SumCountsSnoc(init, p, Macs(init));
      if p.mac !in Macs(init) {
        OfMacNonEmpty(init, p.mac);
        assert OfMac(ps, p.mac) == OfMac(init, p.mac) + [p];
      }
    }
  }

  /** The per-address packet counts sum to the number of captured packets. */
  lemma PacketCountsSumToTotal(ps: seq<Packet>)
    ensures SumPacketCounts(FeatureTable(ps)) == |ps|
  {
    RowsSum(ps, Macs(ps));
    GroupsCoverCapture(ps);
  }

  /** The address-to-label map built by zipping the rows with their labels. */
  function ClusterMap(fs: seq<MacFeatures>, labels: seq<int>): (cm: map<Mac, int>)
    requires |labels| == |fs|
    ensures forall m :: m in cm <==> exists i :: 0 <= i < |fs| && fs[i].mac == m
  {
    if |fs| == 0 then map[]
    else
      var n := |fs| - 1;
      var prev := ClusterMap(fs[..n], labels[..n]);
      assert forall i :: 0 <= i < n ==> fs[..n][i] == fs[i];
      prev[fs[n].mac := labels[n]]
  }

  /** As with a dictionary built from zipped pairs, the label of an address is
      the label of its last row. */
  lemma {:induction false} ClusterMapLastWins(fs: seq<MacFeatures>, labels: seq<int>, i: int)
    requires |labels| == |fs| && 0 <= i < |fs|
    requires forall j :: i < j < |fs| ==> fs[j].mac != fs[i].mac
    ensures fs[i].mac in ClusterMap(fs, labels) && ClusterMap(fs, labels)[fs[i].mac] == labels[i]
  {
    var n := |fs| - 1;
    var prev := ClusterMap(fs[..n], labels[..n]);
    assert ClusterMap(fs, labels) == prev[fs[n].mac := labels[n]];
    if i < n {
      assert fs[..n][i] == fs[i] && labels[..n][i] == labels[i];
      assert forall j :: i < j < n ==> fs[..n][j] == fs[j];
      ClusterMapLastWins(fs[..n], labels[..n], i);
      assert fs[n].mac != fs[i].mac;
    }
  }

  /** Writes onto every packet the label of its own address. */
  function AssignLabels(ps: seq<Packet>, cm: map<Mac, int>): (r: seq<LabeledPacket>)
    requires forall i :: 0 <= i < |ps| ==> ps[i].mac in cm
    ensures |r| == |ps|
    ensures forall i :: 0 <= i < |ps| ==> r[i] == LabeledPacket(ps[i], cm[ps[i].mac])
  {
    seq(|ps|, i requires 0 <= i < |ps| => LabeledPacket(ps[i], cm[ps[i].mac]))
  }

  /** Zipping the table with its labels maps every observed address to the
      label of its own row. */
  lemma ClusterMapOfTable(ps: seq<Packet>, labels: seq<int>)
    requires |labels| == |Macs(ps)|
    ensures forall j :: 0 <= j < |labels| ==>
              Macs(ps)[j] in ClusterMap(FeatureTable(ps), labels)
              && ClusterMap(FeatureTable(ps), labels)[Macs(ps)[j]] == labels[j]
  {
    var fs := FeatureTable(ps);
    forall j | 0 <= j < |labels|
      ensures Macs(ps)[j] in ClusterMap(fs, labels) && ClusterMap(fs, labels)[Macs(ps)[j]] == labels[j]
    {
      assert fs[j].mac == Macs(ps)[j];
      forall k | j < k < |fs| ensures fs[k].mac != fs[j].mac {
        assert fs[k].mac == Macs(ps)[k];
      }
      ClusterMapLastWins(fs, labels, j);
    }
  }

  /** Some observed address sent exactly one packet. */
  ghost predicate SinglePacketAddress(ps: seq<Packet>) {
    exists m :: Observed(ps, m) && |OfMac(ps, m)| == 1
  }

  /** Clustering stage: build the per-address rows, attach the clustering's
      labels (one per row, in row order), and label every packet with its
      address's label. An empty capture has no feature columns to cluster, and
      a row with an undefined spread is rejected by the clustering. */
  function ClusterDevices(ps: seq<Packet>, labels: seq<int>): (r: Result<Clustering, ClusterError>)
    requires |labels| == |Macs(ps)|
    ensures r == Failure(EmptyCapture) <==> |ps| == 0
    ensures r == Failure(UndefinedSpread) <==> |ps| > 0 && SinglePacketAddress(ps)
    ensures r.Success? ==> r.value == LabelCapture(ps, labels)
    ensures r.Success? ==>
              && r.value.features == FeatureTable(ps)
              && r.value.labels == labels
              && |r.value.labeled| == |ps|
    ensures r.Success? ==> forall i :: 0 <= i < |ps| ==> r.value.labeled[i].packet == ps[i]
    ensures r.Success? ==> forall i, j ::
              0 <= i < |ps| && 0 <= j < |labels| && Macs(ps)[j] == ps[i].mac ==>
                r.value.labeled[i].logicalDevice == labels[j]
  {
    if |ps| == 0 then Failure(EmptyCapture)
    else if HasSinglePacketAddress(ps) then Failure(UndefinedSpread)
    else Success(LabelCapture(ps, labels))
  }

  /** Tests, packet by packet, whether the packet's address sent only it. */
  function HasSinglePacketAddress(ps: seq<Packet>): (b: bool)
    ensures b <==> SinglePacketAddress(ps)
  {
    LonePacketAddress(ps);
    exists i :: 0 <= i < |ps| && |OfMac(ps, ps[i].mac)| == 1
  }

  /** The clustering outcome once the clustering has labelled the rows: the
      table, its labels, and every packet labelled with its address's label. */
  function LabelCapture(ps: seq<Packet>, labels: seq<int>): (c: Clustering)
    requires |labels| == |Macs(ps)|
    ensures c.features == FeatureTable(ps) && c.labels == labels && |c.labeled| == |ps|
    ensures forall i :: 0 <= i < |ps| ==> c.labeled[i].packet == ps[i]
    ensures forall i, j ::
              0 <= i < |ps| && 0 <= j < |labels| && Macs(ps)[j] == ps[i].mac ==>
                c.labeled[i].logicalDevice == labels[j]
  {
    var fs := FeatureTable(ps);
    var cm := ClusterMap(fs, labels);
    ClusterMapOfTable(ps, labels);
    EveryAddressMapped(ps, labels);
    Clustering(fs, labels, AssignLabels(ps, cm))
  }

  /** The label map has a key for the address of every packet. */
  lemma EveryAddressMapped(ps: seq<Packet>, labels: seq<int>)
    requires |labels| == |Macs(ps)|
    ensures forall i :: 0 <= i < |ps| ==> ps[i].mac in ClusterMap(FeatureTable(ps), labels)
  {
    ClusterMapOfTable(ps, labels);
    forall i | 0 <= i < |ps| ensures ps[i].mac in ClusterMap(FeatureTable(ps), labels) {
      assert Observed(ps, ps[i].mac);
      var j :| 0 <= j < |Macs(ps)| && Macs(ps)[j] == ps[i].mac;
    }
  }

  /** Some packet's address sent only that packet exactly when some observed
      address has a single packet; otherwise every address has at least two. */
  lemma LonePacketAddress(ps: seq<Packet>)
    ensures (exists i :: 0 <= i < |ps| && |OfMac(ps, ps[i].mac)| == 1) <==> SinglePacketAddress(ps)
    ensures (forall i :: 0 <= i < |ps| ==> |OfMac(ps, ps[i].mac)| != 1) ==>
              forall i :: 0 <= i < |ps| ==> |OfMac(ps, ps[i].mac)| >= 2
  {
    if exists m :: Observed(ps, m) && |OfMac(ps, m)| == 1 {
      var m :| Observed(ps, m) && |OfMac(ps, m)| == 1;
      var i :| 0 <= i < |ps| && ps[i].mac == m;
      assert |OfMac(ps, ps[i].mac)| == 1;
    }
    forall i | 0 <= i < |ps| ensures |OfMac(ps, ps[i].mac)| >= 1 {
      InOwnGroup(ps, i);
    }
  }

  /** Every packet is in the group of its own address. */
  lemma InOwnGroup(ps: seq<Packet>, i: int)
    requires 0 <= i < |ps|
    ensures ps[i] in OfMac(ps, ps[i].mac)
  {
  }

  /** Every packet's label is the label of some row, and every row's label
      appears on some packet: the labels on packets are exactly the labels of
      the clustering. */
  lemma PacketLabelsAreRowLabels(ps: seq<Packet>, labels: seq<int>)
    requires |labels| == |Macs(ps)|
    ensures forall i :: 0 <= i < |ps| ==> LabelCapture(ps, labels).labeled[i].logicalDevice in labels
    ensures forall j :: 0 <= j < |labels| ==>
              exists i :: 0 <= i < |ps| && LabelCapture(ps, labels).labeled[i].logicalDevice == labels[j]
  {
    var labeled := LabelCapture(ps, labels).labeled;
    forall i | 0 <= i < |ps| ensures labeled[i].logicalDevice in labels {
      assert Observed(ps, ps[i].mac);
      var j :| 0 <= j < |Macs(ps)| && Macs(ps)[j] == ps[i].mac;
      assert labeled[i].logicalDevice == labels[j];
    }
    forall j | 0 <= j < |labels|
      ensures exists i :: 0 <= i < |ps| && labeled[i].logicalDevice == labels[j]
    {
      assert Observed(ps, Macs(ps)[j]);
      var i :| 0 <= i < |ps| && ps[i].mac == Macs(ps)[j];
      assert labeled[i].logicalDevice == labels[j];
    }
  }

  /** The distinct labels. */
  function LabelSet(labels: seq<int>): set<int> {
    set l | l in labels
  }

  /** The distinct labels other than noise. */
  function DeviceLabels(labels: seq<int>): set<int> {
    set l | l in labels && l != Noise
  }

  /** A set drawn from a sequence has no more elements than the sequence. */
  lemma {:induction false} LabelSetBound(labels: seq<int>)
    ensures |LabelSet(labels)| <= |labels|
  {
    if |labels| > 0 {
      LabelSetBound(labels[1..]);
      assert LabelSet(labels) == LabelSet(labels[1..]) + {labels[0]};
    }
  }

  /** Number of logical devices reported: the distinct labels, less one when the
      noise label is among them. */
  function CountLogicalDevices(labels: seq<int>): (n: nat)
    ensures n == |DeviceLabels(labels)|
    ensures n <= |labels|
    ensures n == 0 <==> forall i :: 0 <= i < |labels| ==> labels[i] == Noise
  {
    var all := LabelSet(labels);
    LabelSetBound(labels);
    if Noise in labels then
      assert all == DeviceLabels(labels) + {Noise};
      assert Noise !in DeviceLabels(labels);
      assert (forall i :: 0 <= i < |labels| ==> labels[i] == Noise) ==> DeviceLabels(labels) == {};
      assert DeviceLabels(labels) == {} ==> forall i :: 0 <= i < |labels| ==> labels[i] == Noise by {
        if exists i :: 0 <= i < |labels| && labels[i] != Noise {
          var i :| 0 <= i < |labels| && labels[i] != Noise;
          assert labels[i] in DeviceLabels(labels);
        }
      }
      |all| - 1
    else
      assert all == DeviceLabels(labels);
      assert |labels| > 0 ==> labels[0] in all;
      |all|
  }
}
