/**
 * MAC rotation gap detector. The capture times of each observed address are put
 * in order, and every gap between consecutive packets that is strictly longer
 * than the threshold is reported as a suspected address rotation, with the number
 * of that address's packets before the boundary and at or after it.
 */
module Rotation {
  import opened Capture

  const SecondsPerMinute := 60

  /** One suspected rotation: the address, the capture time of the packet after
      the gap, the gap length in seconds, and the address's packet counts strictly
      before and at or after that time. */
  datatype RotationEvent = RotationEvent(
    mac: Mac,
    rotationTime: int,
    gapSeconds: int,
    packetsBefore: nat,
    packetsAfter: nat)

  /** Number of times strictly earlier than `t`. */
  function CountBefore(ts: seq<int>, t: int): (n: nat)
    ensures n <= |ts|
    ensures n > 0 <==> exists i :: 0 <= i < |ts| && ts[i] < t
  {
    if |ts| == 0 then 0
    else
      var n := (if ts[0] < t then 1 else 0) + CountBefore(ts[1..], t);
      assert (exists i :: 0 <= i < |ts[1..]| && ts[1..][i] < t) ==> exists i :: 0 <= i < |ts| && ts[i] < t;
      n
  }

  /** Number of times at or after `t`. */
  function CountAtOrAfter(ts: seq<int>, t: int): (n: nat)
    ensures n <= |ts|
    ensures n > 0 <==> exists i :: 0 <= i < |ts| && ts[i] >= t
  {
    if |ts| == 0 then 0
    else
      var n := (if ts[0] >= t then 1 else 0) + CountAtOrAfter(ts[1..], t);
      assert (exists i :: 0 <= i < |ts[1..]| && ts[1..][i] >= t) ==> exists i :: 0 <= i < |ts| && ts[i] >= t;
      n
  }

  /** The strict "before" filter and the "at or after" filter partition the
      timeline. */
  lemma {:induction false} CountsPartition(ts: seq<int>, t: int)
    ensures CountBefore(ts, t) + CountAtOrAfter(ts, t) == |ts|
  {
    if |ts| > 0 {
      CountsPartition(ts[1..], t);
    }
  }

  /** When the first `k` times are exactly those before `t`, `k` times come
      before `t` and the rest at or after it. */
  lemma {:induction false} CountsAtSplit(ts: seq<int>, t: int, k: nat)
    requires k <= |ts|
    requires forall i :: 0 <= i < k ==> ts[i] < t
    requires forall i :: k <= i < |ts| ==> ts[i] >= t
    ensures CountBefore(ts, t) == k
    ensures CountAtOrAfter(ts, t) == |ts| - k
  {
    if |ts| > 0 {
      CountsAtSplit(ts[1..], t, if k > 0 then k - 1 else 0);
    }
  }

  /** The packet at index `i` follows its predecessor by more than `thr`. */
  predicate GapExceeds(ts: seq<int>, thr: int, i: int) {
    1 <= i < |ts| && ts[i] - ts[i - 1] > thr
  }

  /** The indices below `k` whose gap from the previous time exceeds `thr`. */
  ghost function LargeGaps(ts: seq<int>, thr: int, k: nat): set<int> {
    set i | 1 <= i < k && GapExceeds(ts, thr, i)
  }

  /** Extending the index range by one adds at most that index. */
  lemma LargeGapsStep(ts: seq<int>, thr: int, k: nat)
    requires k >= 1
    ensures |LargeGaps(ts, thr, k + 1)| == |LargeGaps(ts, thr, k)| + (if GapExceeds(ts, thr, k) then 1 else 0)
  {
    if GapExceeds(ts, thr, k) {
      assert LargeGaps(ts, thr, k + 1) == LargeGaps(ts, thr, k) + {k};
      AddLargerIndex(LargeGaps(ts, thr, k), k);
    } else {
      assert LargeGaps(ts, thr, k + 1) == LargeGaps(ts, thr, k);
    }
  }

  /** The event reported for the gap that ends at index `i`. */
  function EventAt(mac: Mac, ts: seq<int>, i: int): (e: RotationEvent)
    requires 1 <= i < |ts|
    ensures e.packetsBefore + e.packetsAfter == |ts|
  {
    CountsPartition(ts, ts[i]);
    RotationEvent(mac, ts[i], ts[i] - ts[i - 1], CountBefore(ts, ts[i]), CountAtOrAfter(ts, ts[i]))
  }

  /** The events for the gaps ending before index `k`, in timeline order: one
      per gap above the threshold. */
  function EventsUpTo(mac: Mac, ts: seq<int>, thr: int, k: nat): (r: seq<RotationEvent>)
    requires k <= |ts|
    ensures |r| == |LargeGaps(ts, thr, k)|
    decreases k
  {
    if k < 2 then
      assert LargeGaps(ts, thr, k) == {};
      []
    else
      var prev := EventsUpTo(mac, ts, thr, k - 1);
      LargeGapsStep(ts, thr, k - 1);
      if GapExceeds(ts, thr, k - 1) then prev + [EventAt(mac, ts, k - 1)] else prev
  }

  /** Every event listed belongs to a gap above the threshold. */
  lemma {:induction false} EventsUpToSound(mac: Mac, ts: seq<int>, thr: int, k: nat)
    requires k <= |ts|
    ensures forall j :: 0 <= j < |EventsUpTo(mac, ts, thr, k)| ==>
              exists i :: 1 <= i < k && GapExceeds(ts, thr, i) && EventsUpTo(mac, ts, thr, k)[j] == EventAt(mac, ts, i)
    decreases k
  {
    if k >= 2 {
      EventsUpToSound(mac, ts, thr, k - 1);
      var prev := EventsUpTo(mac, ts, thr, k - 1);
      var r := EventsUpTo(mac, ts, thr, k);
      forall j | 0 <= j < |r|
        ensures exists i :: 1 <= i < k && GapExceeds(ts, thr, i) && r[j] == EventAt(mac, ts, i)
      {
        if j < |prev| {
          assert r[j] == prev[j];
          var i :| 1 <= i < k - 1 && GapExceeds(ts, thr, i) && prev[j] == EventAt(mac, ts, i);
          assert 1 <= i < k && GapExceeds(ts, thr, i) && r[j] == EventAt(mac, ts, i);
        } else {
          assert r == prev + [EventAt(mac, ts, k - 1)];
          assert GapExceeds(ts, thr, k - 1) && r[j] == EventAt(mac, ts, k - 1);
        }
      }
    } else {
      assert EventsUpTo(mac, ts, thr, k) == [];
    }
  }

  /** Every gap above the threshold has its event listed. */
  lemma {:induction false} EventsUpToComplete(mac: Mac, ts: seq<int>, thr: int, k: nat)
    requires k <= |ts|
    ensures forall i :: 1 <= i < k && GapExceeds(ts, thr, i) ==> EventAt(mac, ts, i) in EventsUpTo(mac, ts, thr, k)
    decreases k
  {
    if k >= 2 {
      EventsUpToComplete(mac, ts, thr, k - 1);
      var prev := EventsUpTo(mac, ts, thr, k - 1);
      var r := EventsUpTo(mac, ts, thr, k);
      forall i | 1 <= i < k && GapExceeds(ts, thr, i) ensures EventAt(mac, ts, i) in r {
        if i < k - 1 {
          var j :| 0 <= j < |prev| && prev[j] == EventAt(mac, ts, i);
          assert r[j] == prev[j];
        } else {
          assert r == prev + [EventAt(mac, ts, k - 1)];
        }
      }
    }
  }

  /** Rotation events of one address's time-ordered capture times: one event for
      every consecutive pair more than `thr` seconds apart, and nothing else. */
  function TimelineEvents(mac: Mac, ts: seq<int>, thr: int): (r: seq<RotationEvent>)
    ensures |r| == |LargeGaps(ts, thr, |ts|)|
    ensures forall e :: e in r <==>
              exists i :: GapExceeds(ts, thr, i) && e == EventAt(mac, ts, i)
    ensures forall e :: e in r ==>
              e.mac == mac && e.gapSeconds > thr && e.packetsBefore + e.packetsAfter == |ts|
    ensures |ts| < 2 ==> r == []
  {
    EventsUpToSound(mac, ts, thr, |ts|);
    EventsUpToComplete(mac, ts, thr, |ts|);
    EventsUpTo(mac, ts, thr, |ts|)
  }

  /** On a sorted timeline with a non-negative threshold, the packet after a gap
      is the first one at its time: it has exactly as many packets before it as
      its position, both counts are at least one, and the boundary packet itself
      is counted after the boundary. */
  lemma EventBoundary(mac: Mac, ts: seq<int>, thr: int, e: RotationEvent)
    requires Sorted(ts) && thr >= 0
    requires e in TimelineEvents(mac, ts, thr)
    ensures exists i :: 1 <= i < |ts| && e.rotationTime == ts[i] && e.packetsBefore == i && e.packetsAfter == |ts| - i
    ensures e.packetsBefore >= 1 && e.packetsAfter >= 1
  {
    var i :| GapExceeds(ts, thr, i) && e == EventAt(mac, ts, i);
    GapBoundary(mac, ts, thr, i);
  }

  /** The event of a gap above a non-negative threshold on a sorted timeline
      splits the timeline at the gap. */
  lemma GapBoundary(mac: Mac, ts: seq<int>, thr: int, i: int)
    requires Sorted(ts) && thr >= 0 && GapExceeds(ts, thr, i)
    ensures EventAt(mac, ts, i).rotationTime == ts[i]
    ensures EventAt(mac, ts, i).packetsBefore == i && EventAt(mac, ts, i).packetsAfter == |ts| - i
  {
    var t := ts[i];
    assert forall j :: 0 <= j < i ==> ts[j] < t by {
      forall j | 0 <= j < i ensures ts[j] < t {
        assert ts[j] <= ts[i - 1];
      }
    }
    assert forall j :: i <= j < |ts| ==> ts[j] >= t;
    CountsAtSplit(ts, t, i);
  }

  /** Events listed in strictly increasing order of rotation time. */
  predicate StrictlyIncreasingTimes(r: seq<RotationEvent>) {
    forall j, j' :: 0 <= j < j' < |r| ==> r[j].rotationTime < r[j'].rotationTime
  }

  /** Appending an event later than all listed ones keeps the order strict. */
  lemma AppendLater(prev: seq<RotationEvent>, e: RotationEvent)
    requires StrictlyIncreasingTimes(prev)
    requires forall d :: d in prev ==> d.rotationTime < e.rotationTime
    ensures StrictlyIncreasingTimes(prev + [e])
  {
    var r := prev + [e];
    forall j, j' | 0 <= j < j' < |r| ensures r[j].rotationTime < r[j'].rotationTime {
      assert r[j] == prev[j] && prev[j] in prev;
    }
  }

  /** With a non-negative threshold on a sorted timeline, the events come in
      strictly increasing order of rotation time, so no boundary is reported
      twice. */
  lemma {:induction false} EventsStrictlyOrdered(mac: Mac, ts: seq<int>, thr: int, k: nat)
    requires Sorted(ts) && thr >= 0 && k <= |ts|
    ensures StrictlyIncreasingTimes(EventsUpTo(mac, ts, thr, k))
    decreases k
  {
    if k >= 2 {
      EventsStrictlyOrdered(mac, ts, thr, k - 1);
      var prev := EventsUpTo(mac, ts, thr, k - 1);
      if GapExceeds(ts, thr, k - 1) {
        forall i | 1 <= i < k - 1 ensures ts[i] < ts[k - 1] {
          SortedAt(ts, i, k - 2);
        }
        EventsBefore(mac, ts, thr, k - 1, ts[k - 1]);
        AppendLater(prev, EventAt(mac, ts, k - 1));
        assert EventsUpTo(mac, ts, thr, k) == prev + [EventAt(mac, ts, k - 1)];
      } else {
        assert EventsUpTo(mac, ts, thr, k) == prev;
      }
    } else {
      assert EventsUpTo(mac, ts, thr, k) == [];
    }
  }

  /** When every packet before index `k` is earlier than `t`, so is every event
      listed for the gaps ending before `k`. */
  lemma {:induction false} EventsBefore(mac: Mac, ts: seq<int>, thr: int, k: nat, t: int)
    requires k <= |ts|
    requires forall i :: 1 <= i < k ==> ts[i] < t
    ensures forall e :: e in EventsUpTo(mac, ts, thr, k) ==> e.rotationTime < t
    decreases k
  {
    if k >= 2 {
      EventsBefore(mac, ts, thr, k - 1, t);
      var prev := EventsUpTo(mac, ts, thr, k - 1);
      if GapExceeds(ts, thr, k - 1) {
        assert EventsUpTo(mac, ts, thr, k) == prev + [EventAt(mac, ts, k - 1)];
      } else {
        assert EventsUpTo(mac, ts, thr, k) == prev;
      }
    } else {
      assert EventsUpTo(mac, ts, thr, k) == [];
    }
  }

  /** Two positions of a sorted sequence are in order. */
  lemma SortedAt(ts: seq<int>, a: int, b: int)
    requires Sorted(ts) && 0 <= a <= b < |ts|
    ensures ts[a] <= ts[b]
  {
  }

  /** Raising the threshold can only drop events: every event reported at the
      higher threshold is reported at the lower one, and there are no more of
      them. */
  lemma {:induction false} LowerThresholdKeepsEvents(mac: Mac, ts: seq<int>, lo: int, hi: int, k: nat)
    requires lo <= hi && k <= |ts|
    ensures |EventsUpTo(mac, ts, hi, k)| <= |EventsUpTo(mac, ts, lo, k)|
    ensures forall e :: e in EventsUpTo(mac, ts, hi, k) ==> e in EventsUpTo(mac, ts, lo, k)
    decreases k
  {
    if k >= 2 {
      LowerThresholdKeepsEvents(mac, ts, lo, hi, k - 1);
      var ph := EventsUpTo(mac, ts, hi, k - 1);
      var pl := EventsUpTo(mac, ts, lo, k - 1);
      var ev := [EventAt(mac, ts, k - 1)];
      if GapExceeds(ts, hi, k - 1) {
        assert GapExceeds(ts, lo, k - 1);
        assert EventsUpTo(mac, ts, hi, k) == ph + ev;
        assert EventsUpTo(mac, ts, lo, k) == pl + ev;
      } else if GapExceeds(ts, lo, k - 1) {
        assert EventsUpTo(mac, ts, hi, k) == ph;
        assert EventsUpTo(mac, ts, lo, k) == pl + ev;
      } else {
        assert EventsUpTo(mac, ts, hi, k) == ph;
        assert EventsUpTo(mac, ts, lo, k) == pl;
      }
    }
  }

  /** The time-ordered capture times of address `m`. */
  function MacTimeline(ps: seq<Packet>, m: Mac): (ts: seq<int>)
    ensures Sorted(ts)
    ensures multiset(ts) == multiset(Times(OfMac(ps, m)))
    ensures |ts| == |OfMac(ps, m)|
  {
    var sorted := SortByTime(OfMac(ps, m));
    SortedTimes(sorted);
    SortByTimeTimes(OfMac(ps, m));
    assert |sorted| == |multiset(sorted)| == |OfMac(ps, m)|;
    Times(sorted)
  }

  /** The rotation events of address `m` for a threshold of `thr` seconds. */
  function MacEvents(ps: seq<Packet>, m: Mac, thr: int): (r: seq<RotationEvent>)
    ensures forall e :: e in r ==>
              e.mac == m && e.gapSeconds > thr && e.packetsBefore + e.packetsAfter == |OfMac(ps, m)|
  {
    TimelineEvents(m, MacTimeline(ps, m), thr)
  }

  /** The events of the listed addresses, address after address. */
  function EventsForMacs(ps: seq<Packet>, macs: seq<Mac>, thr: int): (r: seq<RotationEvent>)
    ensures forall e :: e in r ==> e.mac in macs && e.gapSeconds > thr
    ensures forall e :: e in r ==> e.packetsBefore + e.packetsAfter == |OfMac(ps, e.mac)|
  {
    if |macs| == 0 then []
    else MacEvents(ps, macs[0], thr) + EventsForMacs(ps, macs[1..], thr)
  }

  /** Rotation detection over a whole capture: every observed address in order
      of first appearance, with a gap threshold of whole minutes compared
      strictly in seconds. */
  function DetectRotationEvents(ps: seq<Packet>, gapThresholdMinutes: int): (r: seq<RotationEvent>)
    ensures forall e :: e in r ==> Observed(ps, e.mac)
    ensures forall e :: e in r ==> e.gapSeconds > gapThresholdMinutes * SecondsPerMinute
    ensures forall e :: e in r ==> e.packetsBefore + e.packetsAfter == |OfMac(ps, e.mac)|
    ensures |ps| == 0 ==> r == []
  {
    EventsForMacs(ps, Macs(ps), gapThresholdMinutes * SecondsPerMinute)
  }

  /** The events of one address, picked out of a list of events. */
  function EventsOfMac(r: seq<RotationEvent>, m: Mac): (s: seq<RotationEvent>)
    ensures forall e :: e in s <==> e in r && e.mac == m
  {
    if |r| == 0 then []
    else (if r[0].mac == m then [r[0]] else []) + EventsOfMac(r[1..], m)
  }

  /** Picking one address's events distributes over concatenation. */
  lemma {:induction false} EventsOfMacAppend(a: seq<RotationEvent>, b: seq<RotationEvent>, m: Mac)
    ensures EventsOfMac(a + b, m) == EventsOfMac(a, m) + EventsOfMac(b, m)
  {
    if |a| == 0 {
      assert a + b == b;
    } else {
      assert (a + b)[0] == a[0];
      assert (a + b)[1..] == a[1..] + b;
      EventsOfMacAppend(a[1..], b, m);
    }
  }

  /** Picking the events of the address they all carry keeps them all. */
  lemma {:induction false} EventsOfMacAll(r: seq<RotationEvent>, m: Mac)
    requires forall e :: e in r ==> e.mac == m
    ensures EventsOfMac(r, m) == r
  {
    if |r| > 0 {
      EventsOfMacAll(r[1..], m);
    }
  }

  /** Picking an address none of the events carries yields nothing. */
  lemma EventsOfMacNone(r: seq<RotationEvent>, m: Mac)
    requires forall e :: e in r ==> e.mac != m
    ensures EventsOfMac(r, m) == []
  {
    if EventsOfMac(r, m) != [] {
      assert EventsOfMac(r, m)[0] in EventsOfMac(r, m);
    }
  }

  /** Over distinct addresses, the events carrying address `m` are exactly
      the events computed for `m` alone. */
  lemma {:induction false} EventsForMacsOfMac(ps: seq<Packet>, macs: seq<Mac>, thr: int, m: Mac)
    requires Distinct(macs)
    ensures EventsOfMac(EventsForMacs(ps, macs, thr), m) == if m in macs then MacEvents(ps, m, thr) else []
  {
    if |macs| > 0 {
      EventsOfMacAppend(MacEvents(ps, macs[0], thr), EventsForMacs(ps, macs[1..], thr), m);
      EventsForMacsOfMac(ps, macs[1..], thr, m);
      if macs[0] == m {
        EventsOfMacAll(MacEvents(ps, m, thr), m);
        assert m !in macs[1..];
      } else {
        EventsOfMacNone(MacEvents(ps, macs[0], thr), m);
      }
    }
  }

  /** Detection is per address: the events a capture reports for address `m`
      are exactly the events of `m`'s own packets. */
  lemma DetectionIsPerAddress(ps: seq<Packet>, gapThresholdMinutes: int, m: Mac)
    ensures EventsOfMac(DetectRotationEvents(ps, gapThresholdMinutes), m)
         == MacEvents(ps, m, gapThresholdMinutes * SecondsPerMinute)
  {
    EventsForMacsOfMac(ps, Macs(ps), gapThresholdMinutes * SecondsPerMinute, m);
    if m !in Macs(ps) {
      OfMacNonEmpty(ps, m);
      assert MacTimeline(ps, m) == [];
    }
  }

  /** An address's events depend only on the multiset of its own capture times:
      neither other addresses' packets nor the order of capture matter. */
  lemma OtherAddressesIrrelevant(ps: seq<Packet>, qs: seq<Packet>, m: Mac, thr: int)
    requires multiset(Times(OfMac(ps, m))) == multiset(Times(OfMac(qs, m)))
    ensures MacEvents(ps, m, thr) == MacEvents(qs, m, thr)
  {
    SortedTimesDetermined(OfMac(ps, m), OfMac(qs, m));
  }

  /** Lowering the threshold never decreases the total number of events. */
  lemma {:induction false} LowerThresholdMoreEvents(ps: seq<Packet>, macs: seq<Mac>, lo: int, hi: int)
    requires lo <= hi
    ensures |EventsForMacs(ps, macs, hi)| <= |EventsForMacs(ps, macs, lo)|
  {
    if |macs| > 0 {
      var ts := MacTimeline(ps, macs[0]);
      LowerThresholdKeepsEvents(macs[0], ts, lo, hi, |ts|);
      LowerThresholdMoreEvents(ps, macs[1..], lo, hi);
    }
  }

  /** Monotonicity in the threshold for a whole capture. */
  lemma LowerThresholdNeverFewer(ps: seq<Packet>, loMinutes: int, hiMinutes: int)
    requires loMinutes <= hiMinutes
    ensures |DetectRotationEvents(ps, hiMinutes)| <= |DetectRotationEvents(ps, loMinutes)|
  {
    LowerThresholdMoreEvents(ps, Macs(ps), loMinutes * SecondsPerMinute, hiMinutes * SecondsPerMinute);
  }

  /** One address heard at 0 s and again 20 minutes later, with the default
      15-minute threshold: exactly one event, at the second packet, with one
      packet on each side of the boundary. */
  lemma OneAddressTwentyMinuteGap()
    ensures DetectRotationEvents([Packet("a", 0, -60), Packet("a", 1200, -61)], 15)
         == [RotationEvent("a", 1200, 1200, 1, 1)]
  {
    var ps := [Packet("a", 0, -60), Packet("a", 1200, -61)];
    OneAddressGrouping(ps);
    var ts := [0, 1200];
    OneGapTimeline(ts);
    assert EventsForMacs(ps, ["a"], 900) == MacEvents(ps, "a", 900) + EventsForMacs(ps, [], 900);
  }

  /** Grouping of the single-address capture. */
  lemma OneAddressGrouping(ps: seq<Packet>)
    requires ps == [Packet("a", 0, -60), Packet("a", 1200, -61)]
    ensures Macs(ps) == ["a"] && MacTimeline(ps, "a") == [0, 1200]
  {
    assert MacColumn(ps) == ["a", "a"];
    assert Unique(MacColumn(ps)[..1]) == ["a"];
    OneAddressOwnPackets(ps);
    OneAddressSorted(ps);
    assert Times(ps) == [0, 1200];
  }

  /** Both packets of the single-address capture belong to its address. */
  lemma OneAddressOwnPackets(ps: seq<Packet>)
    requires ps == [Packet("a", 0, -60), Packet("a", 1200, -61)]
    ensures OfMac(ps, "a") == ps
  {
    OfMacAll(ps, "a");
  }

  /** The single-address capture is already in time order. */
  lemma OneAddressSorted(ps: seq<Packet>)
    requires ps == [Packet("a", 0, -60), Packet("a", 1200, -61)]
    ensures SortByTime(ps) == ps
  {
    assert ps[1..][1..] == [];
    assert SortByTime(ps[1..]) == InsertByTime(ps[1], []) == [ps[1]];
    assert InsertByTime(ps[0], [ps[1]]) == ps;
  }

  /** Events of the timeline [0, 1200] at a 900-second threshold. */
  lemma OneGapTimeline(ts: seq<int>)
    requires ts == [0, 1200]
    ensures TimelineEvents("a", ts, 900) == [RotationEvent("a", 1200, 1200, 1, 1)]
  {
    assert ts[1..] == [1200];
    assert CountBefore(ts, 1200) == 1 by {
      assert CountBefore([1200], 1200) == 0;
    }
    assert CountAtOrAfter(ts, 1200) == 1 by {
      assert CountAtOrAfter([1200], 1200) == 1;
    }
    assert EventsUpTo("a", ts, 900, 1) == [];
    assert GapExceeds(ts, 900, 1);
  }

  /** The same two packets under two different addresses: no event, because
      gaps are only measured within one address's packets. */
  lemma TwoAddressesNoEvent()
    ensures DetectRotationEvents([Packet("a", 0, -60), Packet("b", 1200, -61)], 15) == []
  {
    var ps := [Packet("a", 0, -60), Packet("b", 1200, -61)];
    TwoAddressGrouping(ps);
    assert MacEvents(ps, "a", 900) == [];
    assert MacEvents(ps, "b", 900) == [];
    assert EventsForMacs(ps, ["a", "b"][1..], 900) == MacEvents(ps, "b", 900) + EventsForMacs(ps, [], 900);
  }

  /** Grouping of the two-address capture: one packet per address. */
  lemma TwoAddressGrouping(ps: seq<Packet>)
    requires ps == [Packet("a", 0, -60), Packet("b", 1200, -61)]
    ensures Macs(ps) == ["a", "b"]
    ensures |MacTimeline(ps, "a")| == 1 && |MacTimeline(ps, "b")| == 1
  {
    assert MacColumn(ps) == ["a", "b"];
    assert Unique(MacColumn(ps)[..1]) == ["a"];
    assert OfMac(ps[..1], "a") == [ps[0]];
    assert OfMac(ps, "a") == [ps[0]];
    assert OfMac(ps[..1], "b") == [];
    assert OfMac(ps, "b") == [ps[1]];
  }
}
