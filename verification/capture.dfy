/**
 * Captured BLE advertisement records and the grouping and ordering helpers that
 * every analysis stage shares: the distinct values of a column in order of first
 * appearance, the packets of one address, and ordering packets by capture time.
 */
module Capture {

  /** A BLE advertising address, an opaque string. */
  type Mac = string

  /** One received advertisement of an AirTag: its address, its capture time in
      whole seconds, and its received signal strength in dBm. */
  datatype Packet = Packet(mac: Mac, time: int, rssi: int)

  /** No element occurs twice. */
  predicate Distinct<T(==)>(xs: seq<T>) {
    forall i, j :: 0 <= i < j < |xs| ==> xs[i] != xs[j]
  }

  /** `r` is `xs` with some elements deleted and the rest kept in order. */
  ghost predicate Subsequence<T>(r: seq<T>, xs: seq<T>)
    decreases |xs|
  {
    |r| == 0 || (|xs| > 0 && ((r[0] == xs[0] && Subsequence(r[1..], xs[1..])) || Subsequence(r, xs[1..])))
  }

  /** Non-decreasing integers. */
  predicate Sorted(ts: seq<int>) {
    forall i, j :: 0 <= i < j < |ts| ==> ts[i] <= ts[j]
  }

  /** Each element of `u` occurs in `xs` before every occurrence of any element
      that follows it in `u`. */
  predicate InFirstAppearanceOrder<T(==)>(xs: seq<T>, u: seq<T>) {
    forall i, j, k :: 0 <= i < j < |u| && 0 <= k < |xs| && xs[k] == u[j] ==> u[i] in xs[..k]
  }

  /** The distinct elements of `xs` in order of first appearance (a column's
      `unique()`). */
  function Unique<T(==)>(xs: seq<T>): (u: seq<T>)
    ensures Distinct(u)
    ensures forall i :: 0 <= i < |u| ==> u[i] in xs
    ensures forall i :: 0 <= i < |xs| ==> xs[i] in u
    ensures |u| <= |xs|
    ensures |xs| > 0 ==> |u| > 0 && u[0] == xs[0]
  {
    if |xs| == 0 then []
    else
      var u := Unique(xs[..|xs| - 1]);
      if xs[|xs| - 1] in u then u else u + [xs[|xs| - 1]]
  }

  /** The distinct values come in the order in which they first occur. */
  lemma {:induction false} UniqueOrder<T>(xs: seq<T>)
    ensures InFirstAppearanceOrder(xs, Unique(xs))
  {
    if |xs| > 0 {
      var init, x := xs[..|xs| - 1], xs[|xs| - 1];
      var u := Unique(init);
      UniqueOrder(init);
      SnocSplit(xs);
      FirstAppearanceSnoc(init, x, u);
    }
  }

  /** Extending a sequence by one element keeps the order of first appearance of
      its distinct values, with the element appended when it is new. */
  lemma FirstAppearanceSnoc<T>(init: seq<T>, x: T, u: seq<T>)
    requires forall i :: 0 <= i < |u| ==> u[i] in init
    requires forall i :: 0 <= i < |init| ==> init[i] in u
    requires InFirstAppearanceOrder(init, u)
    ensures InFirstAppearanceOrder(init + [x], if x in u then u else u + [x])
  {
    var xs := init + [x];
    var v := if x in u then u else u + [x];
    forall i, j, k | 0 <= i < j < |v| && 0 <= k < |xs| && xs[k] == v[j]
      ensures v[i] in xs[..k]
    {
      if k < |init| {
        assert xs[k] == init[k];
        assert xs[..k] == init[..k];
      } else if j < |u| {
        var k' :| 0 <= k' < |init| && init[k'] == u[j];
        assert u[i] in init[..k'];
        assert xs[..k] == init;
      } else {
        assert xs[..k] == init;
      }
    }
  }

  /** Appending one element either leaves the distinct values alone or adds the
      element at their end. */
  lemma UniqueSnoc<T>(xs: seq<T>, x: T)
    ensures Unique(xs + [x]) == if x in xs then Unique(xs) else Unique(xs) + [x]
  {
    assert (xs + [x])[..|xs + [x]| - 1] == xs;
  }

  /** A sequence without repetitions has as many elements as its set. */
  lemma {:induction false} DistinctCardinality<T>(xs: seq<T>)
    requires Distinct(xs)
    ensures |set x | x in xs| == |xs|
  {
    if |xs| > 0 {
      var init := xs[..|xs| - 1];
      DistinctCardinality(init);
      assert (set x | x in xs) == (set x | x in init) + {xs[|xs| - 1]};
      assert xs[|xs| - 1] !in (set x | x in init);
    }
  }

  /** The address column of a sequence of packets. */
  function MacColumn(ps: seq<Packet>): (r: seq<Mac>)
    ensures |r| == |ps|
    ensures forall i :: 0 <= i < |ps| ==> r[i] == ps[i].mac
  {
    seq(|ps|, i requires 0 <= i < |ps| => ps[i].mac)
  }

  /** The capture-time column of a sequence of packets. */
  function Times(ps: seq<Packet>): (r: seq<int>)
    ensures |r| == |ps|
    ensures forall i :: 0 <= i < |ps| ==> r[i] == ps[i].time
  {
    seq(|ps|, i requires 0 <= i < |ps| => ps[i].time)
  }

  /** The signal-strength column of a sequence of packets. */
  function Rssis(ps: seq<Packet>): (r: seq<int>)
    ensures |r| == |ps|
    ensures forall i :: 0 <= i < |ps| ==> r[i] == ps[i].rssi
  {
    seq(|ps|, i requires 0 <= i < |ps| => ps[i].rssi)
  }

  /** `m` is the address of some captured packet. */
  predicate Observed(ps: seq<Packet>, m: Mac) {
    exists i :: 0 <= i < |ps| && ps[i].mac == m
  }

  /** The observed addresses, each once, in order of first appearance. */
  function Macs(ps: seq<Packet>): (r: seq<Mac>)
    ensures Distinct(r)
    ensures forall m :: m in r <==> Observed(ps, m)
    ensures |r| <= |ps|
  {
    var u := Unique(MacColumn(ps));
    assert forall m :: m in MacColumn(ps) <==> Observed(ps, m) by {
      forall m ensures m in MacColumn(ps) <==> Observed(ps, m) {
        if m in MacColumn(ps) {
          var i :| 0 <= i < |ps| && MacColumn(ps)[i] == m;
        }
      }
    }
    u
  }

  /** The packets sent from address `m`, in capture order. */
  function OfMac(ps: seq<Packet>, m: Mac): (r: seq<Packet>)
    ensures |r| <= |ps|
    ensures forall p :: p in r <==> p in ps && p.mac == m
  {
    if |ps| == 0 then []
    else OfMac(ps[..|ps| - 1], m) + (if ps[|ps| - 1].mac == m then [ps[|ps| - 1]] else [])
  }

  /** The group of `m` holds each packet of `m` as often as the capture does,
      and nothing else. */
  lemma {:induction false} OfMacCounts(ps: seq<Packet>, m: Mac)
    ensures forall p :: multiset(OfMac(ps, m))[p] == if p.mac == m then multiset(ps)[p] else 0
  {
    if |ps| > 0 {
      OfMacCounts(ps[..|ps| - 1], m);
      assert ps == ps[..|ps| - 1] + [ps[|ps| - 1]];
    }
  }

  /** The positions of the packets sent from `m`. */
  ghost function RowsOf(ps: seq<Packet>, m: Mac): set<int> {
    set i | 0 <= i < |ps| && ps[i].mac == m
  }

  /** The group of `m` has one packet per capture row of `m`. */
  lemma {:induction false} OfMacSize(ps: seq<Packet>, m: Mac)
    ensures |OfMac(ps, m)| == |RowsOf(ps, m)|
  {
    if |ps| > 0 {
      OfMacSize(ps[..|ps| - 1], m);
      RowsOfSnoc(ps, m);
    } else {
      assert RowsOf(ps, m) == {};
    }
  }

  /** Dropping the last packet drops its row from the rows of `m`, if it is one. */
  lemma RowsOfSnoc(ps: seq<Packet>, m: Mac)
    requires |ps| > 0
    ensures |RowsOf(ps, m)| == |RowsOf(ps[..|ps| - 1], m)| + (if ps[|ps| - 1].mac == m then 1 else 0)
  {
    var n := |ps| - 1;
    var init := ps[..n];
    assert forall i :: 0 <= i < n ==> init[i] == ps[i];
    if ps[n].mac == m {
      assert RowsOf(ps, m) == RowsOf(init, m) + {n};
      AddLargerIndex(RowsOf(init, m), n);
    } else {
      assert RowsOf(ps, m) == RowsOf(init, m);
    }
  }

  /** A capture holding only packets of `m` is its own group. */
  lemma {:induction false} OfMacAll(ps: seq<Packet>, m: Mac)
    requires forall i :: 0 <= i < |ps| ==> ps[i].mac == m
    ensures OfMac(ps, m) == ps
  {
    if |ps| > 0 {
      var init := ps[..|ps| - 1];
      assert forall i :: 0 <= i < |init| ==> init[i] == ps[i];
      OfMacAll(init, m);
      assert OfMac(ps, m) == init + [ps[|ps| - 1]];
      SnocSplit(ps);
    }
  }

  /** A non-empty sequence is its prefix followed by its last element. */
  lemma SnocSplit<T>(s: seq<T>)
    requires |s| > 0
    ensures s == s[..|s| - 1] + [s[|s| - 1]]
  {
  }

  /** An address has packets exactly when it is observed. */
  lemma OfMacNonEmpty(ps: seq<Packet>, m: Mac)
    ensures |OfMac(ps, m)| > 0 <==> Observed(ps, m)
  {
    if Observed(ps, m) {
      var i :| 0 <= i < |ps| && ps[i].mac == m;
      assert ps[i] in OfMac(ps, m);
    }
  }

  /** Packets ordered by non-decreasing capture time. */
  predicate SortedByTime(ps: seq<Packet>) {
    forall i, j :: 0 <= i < j < |ps| ==> ps[i].time <= ps[j].time
  }

  /** The time column of a concatenation is the concatenation of the columns. */
  lemma TimesAppend(a: seq<Packet>, b: seq<Packet>)
    ensures Times(a + b) == Times(a) + Times(b)
  {
  }

  /** Inserts `p` into a time-ordered sequence, ahead of the packets with the
      same capture time. */
  function InsertByTime(p: Packet, s: seq<Packet>): (r: seq<Packet>)
    requires SortedByTime(s)
    ensures SortedByTime(r)
    ensures |r| == |s| + 1 && (r[0] == p || (|s| > 0 && r[0] == s[0]))
    ensures multiset(r) == multiset(s) + multiset{p}
  {
    if |s| == 0 || p.time <= s[0].time then
      [p] + s
    else
      var rest := InsertByTime(p, s[1..]);
      assert s == [s[0]] + s[1..];
      assert s[0].time <= rest[0].time;
      [s[0]] + rest
  }

  /** Inserting a packet adds its capture time to the time column. */
  lemma {:induction false} InsertByTimeTimes(p: Packet, s: seq<Packet>)
    requires SortedByTime(s)
    ensures multiset(Times(InsertByTime(p, s))) == multiset(Times(s)) + multiset{p.time}
  {
    if |s| == 0 || p.time <= s[0].time {
      var r := InsertByTime(p, s);
      assert r[1..] == s;
      HeadTimes(r);
    } else {
      InsertByTimeTimes(p, s[1..]);
      InsertAfterHeadTimes(p, s);
    }
  }

  /** The step of `InsertByTimeTimes` for a packet inserted after the head. */
  lemma InsertAfterHeadTimes(p: Packet, s: seq<Packet>)
    requires SortedByTime(s) && |s| > 0 && p.time > s[0].time
    requires multiset(Times(InsertByTime(p, s[1..]))) == multiset(Times(s[1..])) + multiset{p.time}
    ensures multiset(Times(InsertByTime(p, s))) == multiset(Times(s)) + multiset{p.time}
  {
    var rest := InsertByTime(p, s[1..]);
    assert InsertByTime(p, s) == [s[0]] + rest;
    ConsTimesShift(s[0], rest, s[1..], p.time);
    assert [s[0]] + s[1..] == s;
  }

  /** Putting the same packet in front of two sequences keeps the difference
      of their time multisets. */
  lemma ConsTimesShift(x: Packet, t: seq<Packet>, u: seq<Packet>, y: int)
    requires multiset(Times(t)) == multiset(Times(u)) + multiset{y}
    ensures multiset(Times([x] + t)) == multiset(Times([x] + u)) + multiset{y}
  {
    TimesAppend([x], t);
    TimesAppend([x], u);
  }

  /** The packets of `ps` ordered by capture time (a stable insertion sort). */
  function SortByTime(ps: seq<Packet>): (r: seq<Packet>)
    ensures SortedByTime(r)
    ensures multiset(r) == multiset(ps)
  {
    if |ps| == 0 then []
    else
      assert ps == [ps[0]] + ps[1..];
      InsertByTime(ps[0], SortByTime(ps[1..]))
  }

  /** Sorting keeps the multiset of capture times. */
  lemma {:induction false} SortByTimeTimes(ps: seq<Packet>)
    ensures multiset(Times(SortByTime(ps))) == multiset(Times(ps))
  {
    if |ps| > 0 {
      var tail := SortByTime(ps[1..]);
      calc {
        multiset(Times(SortByTime(ps)));
        multiset(Times(InsertByTime(ps[0], tail)));
        { InsertByTimeTimes(ps[0], tail); }
        multiset(Times(tail)) + multiset{ps[0].time};
        { SortByTimeTimes(ps[1..]); }
        multiset(Times(ps[1..])) + multiset{ps[0].time};
        { HeadTimes(ps); }
        multiset(Times(ps));
      }
    }
  }

  /** The time column splits into the first time and the rest. */
  lemma HeadTimes(ps: seq<Packet>)
    requires |ps| > 0
    ensures multiset(Times(ps)) == multiset(Times(ps[1..])) + multiset{ps[0].time}
  {
    assert Times(ps) == [ps[0].time] + Times(ps[1..]);
  }

  /** The capture times of a time-ordered sequence are sorted. */
  lemma SortedTimes(ps: seq<Packet>)
    requires SortedByTime(ps)
    ensures Sorted(Times(ps))
  {
  }

  /** Two sorted sequences holding the same values with the same multiplicities
      are equal: a sorted order is determined by its multiset. */
  lemma {:induction false} SortedUnique(a: seq<int>, b: seq<int>)
    requires Sorted(a) && Sorted(b)
    requires multiset(a) == multiset(b)
    ensures a == b
  {
    if |a| == 0 {
      assert |multiset(b)| == 0;
    } else {
      SortedHeads(a, b);
      DropHead(a, b);
      SortedUnique(a[1..], b[1..]);
      assert a == [a[0]] + a[1..];
      assert b == [b[0]] + b[1..];
    }
  }

  /** Two sorted sequences with the same multiset start with the same value. */
  lemma SortedHeads(a: seq<int>, b: seq<int>)
    requires Sorted(a) && Sorted(b)
    requires multiset(a) == multiset(b) && |a| > 0
    ensures |b| > 0 && a[0] == b[0]
  {
    assert |multiset(b)| == |multiset(a)| > 0;
    assert b[0] in multiset(a);
    var k :| 0 <= k < |a| && a[k] == b[0];
    assert a[0] in multiset(b);
    var l :| 0 <= l < |b| && b[l] == a[0];
  }

  /** Removing equal heads keeps the multisets equal. */
  lemma DropHead(a: seq<int>, b: seq<int>)
    requires multiset(a) == multiset(b) && |a| > 0 && |b| > 0 && a[0] == b[0]
    ensures multiset(a[1..]) == multiset(b[1..])
  {
    assert a == [a[0]] + a[1..];
    assert b == [b[0]] + b[1..];
    forall x ensures multiset(a[1..])[x] == multiset(b[1..])[x] {
      assert multiset(a)[x] == multiset{a[0]}[x] + multiset(a[1..])[x];
      assert multiset(b)[x] == multiset{a[0]}[x] + multiset(b[1..])[x];
    }
  }

  /** Ordering by time makes the time column independent of the input order:
      two packet sequences with the same multiset of capture times have the same
      sorted time column. */
  lemma SortedTimesDetermined(xs: seq<Packet>, ys: seq<Packet>)
    requires multiset(Times(xs)) == multiset(Times(ys))
    ensures Times(SortByTime(xs)) == Times(SortByTime(ys))
  {
    SortedTimes(SortByTime(xs));
    SortedTimes(SortByTime(ys));
    SortByTimeTimes(xs);
    SortByTimeTimes(ys);
    SortedUnique(Times(SortByTime(xs)), Times(SortByTime(ys)));
  }

  /** Cardinality of an index set grown by an index above all its members. */
  lemma AddLargerIndex(a: set<int>, k: int)
    requires forall i :: i in a ==> i < k
    ensures |a + {k}| == |a| + 1
  {
    assert k !in a;
  }
}
