# AirTag BLE capture analysis: a Dafny model of the analysis pipeline

This project models the analysis rules of the enhanced BLE analyser. It is a
capture of AirTag advertisements. Each packet has an advertising address, a
capture time and a received signal strength. The analyser runs four stages over
the capture:

1. **MAC rotation detection.** Each observed address is visited in order of
   first appearance. Its packets are ordered by time. Every gap between
   consecutive packets that is strictly longer than the threshold (given in
   minutes) is reported as a suspected address rotation. The report carries the
   time of the packet after the gap, the gap length, and the number of that
   address's packets strictly before that time and at or after it.
2. **Fingerprint clustering.** There is one feature row per address: packet
   count, first seen and last seen. An external clusterer gives one label per
   row. A dictionary zipped from addresses and labels puts on every packet the
   label of its own address (its *logical device*). The number of logical
   devices reported is the number of distinct labels, leaving out the noise
   label −1.
3. **Variance summary.** The distinct logical-device labels on the packets are
   visited in order of first appearance, and noise is skipped. Each device gets
   one record with its packet count and address count. It also gets the
   short-term subset: the time-ordered packets that follow their predecessor by
   less than a minute. The short-term statistic is NaN unless more than ten
   packets qualify.
4. **Positioning error bounds.** The log-distance path-loss formula
   `d = 10^((rssiAt1m − rssi) / (10 n))` is evaluated for each device at its
   mean strength and at one spread either side of it. With a positive exponent
   `n`, the three distances come out in the order lower ≤ estimate ≤ upper. With
   a negative `n`, the order is reversed.

Module layout:

- `outcomes.dfy`: `Option` and `Result`.
- `capture.dfy`: packets, distinct values in first-appearance order, per-address
  grouping, and a stable sort by time, with the lemma that a sorted order is
  determined by its multiset.
- `rotation.dfy`: the gap detector.
- `fingerprint.dfy`: feature rows, the label map and the device count.
- `variance.dfy`: device selection and the short-term subset.
- `positioning.dfy`: the distance ordering.

The power of ten is a parameter `pow10`. The only thing the model assumes about
it is that it is strictly increasing. Likewise, the spread statistic is a
parameter `stdDev`, and the clusterer's output is an input sequence `labels`.

Where the intended design and the code disagree, the model follows the code.
Each item says what the design intends and what the code does instead:

- **Empty capture in clustering.** Intended: an empty capture clusters into no
  devices. Code: selecting the feature columns of an empty frame raises. The
  model returns `Failure(EmptyCapture)`.
- **Single-packet address in clustering.** Intended: every address gets a
  feature row and a label. Code: the sample spread of an address seen once is
  NaN, and the clusterer rejects a row holding NaN, so the stage raises. The
  model returns `Failure(UndefinedSpread)`.
- **Negative threshold.** Intended: the threshold is a positive number of
  minutes, and a negative one would be an invalid argument. Code: a negative
  threshold is accepted and every gap, even a zero one, exceeds it. The bounds
  `packetsBefore ≥ 1` and `packetsAfter ≥ 1` are proved only for a
  non-negative threshold.
- **Zero path-loss exponent.** Intended: the exponent is positive. Code: a zero
  `n` does not raise; floating-point division gives non-finite distances, which
  the model shows as `None`. That happens only when at least one device exists,
  because the division is inside the per-device loop.
- **Packets grouped by address.** Intended: a rotation shows up as a silence in
  one device's transmissions, at the point where its old address stops and its
  new one starts. Code: detection groups packets by address, so a 20-minute
  silence between two *different* addresses produces no event
  (`TwoAddressesNoEvent`). The same silence within one address produces exactly
  one event (`OneAddressTwentyMinuteGap`).

## Model

| member | source | states |
|---|---|---|
| Capture.Unique | IST-594/enhanced_ble_analysis.py:41 | the distinct values of a column: no repeats, every element occurs in the input and every input element occurs in it, never longer than the input, and starts with the first input element |
| Capture.UniqueOrder | IST-594/enhanced_ble_analysis.py:41 | the distinct values come in order of first appearance: each one occurs in the input before every occurrence of any value listed after it |
| Capture.FirstAppearanceSnoc | IST-594/enhanced_ble_analysis.py:41 | appending one element keeps the first-appearance order, with the element added at the end when it is new |
| Capture.Macs | IST-594/enhanced_ble_analysis.py:41 | the per-address loop visits each address exactly once, and exactly the addresses of some packet |
| Capture.OfMac | IST-594/enhanced_ble_analysis.py:42 | an address's packets are exactly the captured packets carrying that address |
| Capture.OfMacCounts | IST-594/enhanced_ble_analysis.py:42 | an address's group holds each of its packets exactly as often as the capture does, and no packet of another address |
| Capture.OfMacSize | IST-594/enhanced_ble_analysis.py:42 | an address's group has one packet per capture row carrying that address |
| Capture.RowsOfSnoc | IST-594/enhanced_ble_analysis.py:42 | one more packet adds one row to its own address's rows and none to any other address |
| Capture.OfMacAll | IST-594/enhanced_ble_analysis.py:42 | a capture of one address is that address's whole group |
| Capture.InsertByTime | IST-594/enhanced_ble_analysis.py:42 | inserting a packet into a time-ordered sequence keeps it time-ordered, adds exactly that packet, and puts either it or the old first packet first |
| Capture.OfMacNonEmpty | IST-594/enhanced_ble_analysis.py:41-42 | an address has at least one packet exactly when it is observed |
| Capture.SortByTime | IST-594/enhanced_ble_analysis.py:42 | ordering by timestamp yields a time-ordered permutation of the input |
| Capture.SortByTimeTimes | IST-594/enhanced_ble_analysis.py:42 | sorting keeps the multiset of capture times |
| Capture.SortedUnique | IST-594/enhanced_ble_analysis.py:42 | two sorted sequences with equal multisets are equal |
| Capture.SortedTimesDetermined | IST-594/enhanced_ble_analysis.py:42-45 | the sorted time column, and so the gap column, depends only on the multiset of capture times, whatever order ties are broken in |
| Rotation.CountBefore | IST-594/enhanced_ble_analysis.py:56 | the before count is at most the number of packets, and positive exactly when some packet is strictly earlier than the time |
| Rotation.CountAtOrAfter | IST-594/enhanced_ble_analysis.py:57 | the after count is at most the number of packets, and positive exactly when some packet is at or after the time |
| Rotation.CountsPartition | IST-594/enhanced_ble_analysis.py:56-57 | packets before plus packets at-or-after any time equals the address's packet count |
| Rotation.CountsAtSplit | IST-594/enhanced_ble_analysis.py:56-57 | on a timeline split at index k by time t, the before count is k and the after count is the rest |
| Rotation.EventAt | IST-594/enhanced_ble_analysis.py:52-58 | every reported event's before and after counts add up to the address's packet count |
| Rotation.EventsUpTo | IST-594/enhanced_ble_analysis.py:45-58 | as many events as there are gaps above the threshold |
| Rotation.EventsUpToSound | IST-594/enhanced_ble_analysis.py:48-58 | every listed event is the event of some gap above the threshold |
| Rotation.EventsUpToComplete | IST-594/enhanced_ble_analysis.py:48-58 | every gap above the threshold has its event listed |
| Rotation.TimelineEvents | IST-594/enhanced_ble_analysis.py:45-58 | the event count equals the number of consecutive gaps strictly above the threshold; an event exists iff its gap exceeds the threshold; fewer than two packets give no event |
| Rotation.GapBoundary | IST-594/enhanced_ble_analysis.py:54-57 | on a sorted timeline with a non-negative threshold, the event of a gap has the time of the packet after it, exactly that packet's index as its before count, and the rest as its after count |
| Rotation.EventBoundary | IST-594/enhanced_ble_analysis.py:54-57 | for a non-negative threshold, an event's time is that of the packet after the gap, the before count is that packet's index, and both counts are at least one |
| Rotation.EventsBefore | IST-594/enhanced_ble_analysis.py:51-54 | when every packet before an index is earlier than a time, so is every event listed before that index |
| Rotation.EventsStrictlyOrdered | IST-594/enhanced_ble_analysis.py:45-54 | for a non-negative threshold, an address's events come in strictly increasing rotation time |
| Rotation.LowerThresholdKeepsEvents | IST-594/enhanced_ble_analysis.py:48 | lowering the threshold keeps every event of one address and never reduces their number |
| Rotation.MacTimeline | IST-594/enhanced_ble_analysis.py:42-45 | an address's timeline is sorted and holds exactly its packets' capture times |
| Rotation.MacEvents | IST-594/enhanced_ble_analysis.py:41-58 | every event of an address carries that address and a gap above the threshold |
| Rotation.EventsForMacs | IST-594/enhanced_ble_analysis.py:41-58 | events of the visited addresses only, each above the threshold, and with counts that partition its address's packets |
| Rotation.DetectRotationEvents | IST-594/enhanced_ble_analysis.py:30-58 | every event names an observed address, has a gap longer than the threshold in minutes, and has before and after counts summing to its address's packet count; an empty capture gives no event |
| Rotation.EventsOfMacAppend | IST-594/enhanced_ble_analysis.py:52 | selecting one address's events distributes over concatenation of the event list |
| Rotation.EventsForMacsOfMac | IST-594/enhanced_ble_analysis.py:41-58 | over distinct addresses, an address's slice of the report is its own events, or nothing when it is not visited |
| Rotation.DetectionIsPerAddress | IST-594/enhanced_ble_analysis.py:41-53 | an address's events in the full report are exactly the events computed from that address's packets alone |
| Rotation.OtherAddressesIrrelevant | IST-594/enhanced_ble_analysis.py:41-45 | two captures in which an address has the same multiset of capture times give that address the same events |
| Rotation.LowerThresholdMoreEvents | IST-594/enhanced_ble_analysis.py:48 | over any list of addresses, a lower threshold never reports fewer events |
| Rotation.LowerThresholdNeverFewer | IST-594/enhanced_ble_analysis.py:48 | the event count is monotonically non-increasing in the threshold |
| Rotation.OneAddressTwentyMinuteGap | IST-594/enhanced_ble_analysis.py:41-58 | two packets of one address 20 minutes apart, with a 15-minute threshold, give exactly one event at the second packet with counts 1 and 1 |
| Rotation.TwoAddressesNoEvent | IST-594/enhanced_ble_analysis.py:41-50 | two single-packet addresses 20 minutes apart give no event |
| Fingerprint.Least | IST-594/enhanced_ble_analysis.py:92 | first seen is one of the times and no later than any of them |
| Fingerprint.Greatest | IST-594/enhanced_ble_analysis.py:93 | last seen is one of the times and no earlier than any of them |
| Fingerprint.FeaturesOf | IST-594/enhanced_ble_analysis.py:84-94 | an address's row carries that address, and its packet count is the number of capture rows carrying that address |
| Fingerprint.FeaturesBracket | IST-594/enhanced_ble_analysis.py:91-93 | an observed address has at least one packet; its first seen and last seen are times of its own packets, with first seen ≤ last seen, and they bracket all its packets |
| Fingerprint.FeatureRows | IST-594/enhanced_ble_analysis.py:82-94 | one row per listed address, in order |
| Fingerprint.FeatureTable | IST-594/enhanced_ble_analysis.py:82-96 | one row per observed address, in order of first appearance |
| Fingerprint.FeatureTableRows | IST-594/enhanced_ble_analysis.py:91-93 | every row of the table has count ≥ 1 and first seen ≤ last seen |
| Fingerprint.RowsSum | IST-594/enhanced_ble_analysis.py:91 | the rows' packet counts add up to the per-address packet counts |
| Fingerprint.SumCountsSnoc | IST-594/enhanced_ble_analysis.py:84 | over distinct addresses, one more packet raises the count total by one exactly when its address is listed |
| Fingerprint.GroupsCoverCapture | IST-594/enhanced_ble_analysis.py:83-84 | the per-address groups cover the capture: their sizes add up to the packet count |
| Fingerprint.PacketCountsSumToTotal | IST-594/enhanced_ble_analysis.py:83-91 | the packet counts of the feature table sum to the total number of packets |
| Fingerprint.ClusterMap | IST-594/enhanced_ble_analysis.py:109 | the address-to-label dictionary has exactly the rows' addresses as keys |
| Fingerprint.ClusterMapLastWins | IST-594/enhanced_ble_analysis.py:109 | an address's label is the label of its last row, as for a dictionary zipped from pairs |
| Fingerprint.AssignLabels | IST-594/enhanced_ble_analysis.py:110 | every packet is kept, in order, and gets its own address's label |
| Fingerprint.ClusterMapOfTable | IST-594/enhanced_ble_analysis.py:102-109 | zipping the feature table with its labels maps each observed address to its own row's label |
| Fingerprint.ClusterDevices | IST-594/enhanced_ble_analysis.py:82-110 | fails with an empty-capture error exactly on an empty capture, fails with an undefined-spread error exactly when the capture is not empty and some observed address has a single packet, and succeeds exactly otherwise; a successful result is the labelled capture, which keeps the feature table, the labels and every packet in order, and gives every packet's logical device as the label of its address's row |
| Fingerprint.LonePacketAddress | IST-594/enhanced_ble_analysis.py:88-100 | some packet's address has a single packet exactly when some observed address does; otherwise every address has at least two |
| Fingerprint.HasSinglePacketAddress | IST-594/enhanced_ble_analysis.py:88-100 | the packet-by-packet test is true exactly when some observed address sent a single packet |
| Fingerprint.EveryAddressMapped | IST-594/enhanced_ble_analysis.py:109-110 | the label map has a key for the address of every packet, so mapping the address column leaves no packet unlabelled |
| Fingerprint.InOwnGroup | IST-594/enhanced_ble_analysis.py:83 | every packet is in the group of its own address |
| Fingerprint.LabelCapture | IST-594/enhanced_ble_analysis.py:96-110 | the feature table and labels are kept, every packet is kept in order, and each packet's logical device is the label of its address's row |
| Fingerprint.PacketLabelsAreRowLabels | IST-594/enhanced_ble_analysis.py:102-110 | in the labelled capture, the labels on packets are exactly the labels of the rows |
| Fingerprint.LabelSetBound | IST-594/enhanced_ble_analysis.py:104 | there are no more distinct labels than labels |
| Fingerprint.CountLogicalDevices | IST-594/enhanced_ble_analysis.py:104 | the device count is the number of distinct non-noise labels, at most the number of rows, and zero exactly when every label is noise |
| Variance.DeviceColumn | IST-594/enhanced_ble_analysis.py:128 | the logical-device column, one entry per packet |
| Variance.WithoutNoise | IST-594/enhanced_ble_analysis.py:129-130 | skipping noise keeps every other element in order and drops every noise element |
| Variance.WithoutNoiseExact | IST-594/enhanced_ble_analysis.py:128-130 | skipping noise yields a subsequence of the labels holding every non-noise label exactly as often as the input does and no noise, which determines it as the order-preserving filter |
| Variance.DeviceIds | IST-594/enhanced_ble_analysis.py:128-130 | the visited devices are distinct and are exactly the non-noise labels on some packet; labels that are all ≥ −1 give non-negative ids |
| Variance.DevicePackets | IST-594/enhanced_ble_analysis.py:132 | a device's packets are exactly the packets carrying that label |
| Variance.DevicePacketsCounts | IST-594/enhanced_ble_analysis.py:132 | a device's packets hold each packet exactly as often as it is labelled with that device |
| Variance.DevicePacketsNonEmpty | IST-594/enhanced_ble_analysis.py:128-132 | a visited device has at least one packet |
| Variance.CloseFollowers | IST-594/enhanced_ble_analysis.py:142-144 | the short-term subset is exactly the packets that follow their predecessor by less than 60 seconds; the first packet never qualifies |
| Variance.CloseFollowersCounts | IST-594/enhanced_ble_analysis.py:142-144 | the short-term subset holds each packet as often as it sits at a qualifying position, and nothing else |
| Variance.CloseIndicesOfStep | IST-594/enhanced_ble_analysis.py:143 | one more position adds one qualifying position holding a packet exactly when that position qualifies and holds it |
| Variance.ShortTerm | IST-594/enhanced_ble_analysis.py:141-145 | the statistic is defined exactly when more than ten packets qualify; it is then taken over as many strengths as qualify, each a qualifying packet's strength |
| Variance.DeviceVariance | IST-594/enhanced_ble_analysis.py:132-154 | a record counts the device's packets (at least one), counts the distinct addresses among the packets labelled with the device (between one and the packet count), and carries the short-term statistic of the device's time-ordered packets |
| Variance.DeviceMacCount | IST-594/enhanced_ble_analysis.py:153 | the addresses counted for a device are exactly the distinct addresses of the packets labelled with it |
| Variance.AnalyzeVariance | IST-594/enhanced_ble_analysis.py:126-154 | one record per visited device, in visiting order |
| Variance.OneRecordPerDevice | IST-594/enhanced_ble_analysis.py:128-154 | a label has a record iff it is a non-noise label on some packet; no label has two records; every record has 1 ≤ addresses ≤ packets |
| Variance.DeviceIdsAreDeviceLabels | IST-594/enhanced_ble_analysis.py:102-130 | after clustering, the devices visited are exactly the clustering's non-noise labels |
| Variance.LabelsOnPackets | IST-594/enhanced_ble_analysis.py:128-130 | when the labels on packets are exactly a label list, the devices visited are exactly its non-noise elements |
| Variance.DeviceCountMatchesRecords | IST-594/enhanced_ble_analysis.py:104-154 | the device count printed by clustering equals the number of variance records |
| Positioning.ExponentDecreasing | IST-594/enhanced_ble_analysis.py:194-198 | with n > 0 a stronger signal gives a strictly smaller exponent |
| Positioning.ExponentIncreasingWhenNegative | IST-594/enhanced_ble_analysis.py:194-198 | with n < 0 a stronger signal gives a strictly larger exponent |
| Positioning.ExponentsAroundMean | IST-594/enhanced_ble_analysis.py:194-198 | the exponents at mean + std, mean and mean − std are strictly ordered one way for n > 0 and the other way for n < 0 |
| Positioning.DeviceErrorBound | IST-594/enhanced_ble_analysis.py:194-202 | for n > 0 and std ≥ 0, d_lower ≤ d_est ≤ d_upper and both margins are non-negative (strict for std > 0); for n < 0 and std > 0 the order flips and both margins are negative; a mean equal to the reference strength gives distance 10^0 |
| Positioning.SumAtLeast | IST-594/enhanced_ble_analysis.py:190 | strengths each at least a bound sum to at least that bound times their number |
| Positioning.SumAtMost | IST-594/enhanced_ble_analysis.py:190 | strengths each at most a bound sum to at most that bound times their number |
| Positioning.Mean | IST-594/enhanced_ble_analysis.py:190 | the mean strength lies between the weakest and the strongest strength, and a constant signal is its own mean |
| Positioning.MeanBetween | IST-594/enhanced_ble_analysis.py:190 | a total between count × low and count × high, divided by a positive count, lies between low and high |
| Positioning.DeviceRow | IST-594/enhanced_ble_analysis.py:188-202 | a device's row carries its id and the mean and spread of its own packets' strengths; the mean lies between the strengths of two packets labelled with the device; for n > 0 and a non-negative spread the distances are ordered and both margins non-negative |
| Positioning.DeviceStrength | IST-594/enhanced_ble_analysis.py:188 | every strength among a device's packets is the strength of a packet labelled with the device |
| Positioning.ErrorRows | IST-594/enhanced_ble_analysis.py:188-202 | one row per listed device, in order, carrying that device's mean and spread, with ordered distances for n > 0 |
| Positioning.PositioningErrors | IST-594/enhanced_ble_analysis.py:184-213 | one row per visited device, carrying that device's mean and spread; no value exactly when n = 0 and some device exists; each row is ordered for n > 0 |
| Positioning.IndoorExample | IST-594/enhanced_ble_analysis.py:194-198 | at mean −65 dBm, spread 3, reference −59, n = 2.5, the exponents are 0.24, 0.36 and 0.12, and the three distances are strictly ordered |

## Left out

- CSV loading, timestamp parsing, the elapsed-hours column, every printed
  report, the figures, the limitations text and the command-line entry point
  are left out. They are I/O and presentation.
- The analyser object's stored results (`rotation_events`, `device_clusters`,
  `variance_analysis`) are left out. Each stage's result is a function value.
- The AirTag filter on the capture is a precondition of the whole model. The
  packet therefore has no device-type field.
- Times are whole seconds, and the rotation threshold is whole minutes. Pandas
  timestamps carry sub-second precision, and the threshold may be fractional;
  neither is modelled.
- The gap of a rotation event is kept in seconds. The conversion to hours,
  a floating-point division, is left out.
- The clustering itself (DBSCAN over mean and spread) is left out: it is
  foreign numerical code. Its output is the input `labels`, one per feature row
  in row order.
- The feature rows' mean, spread and median strengths are left out as values,
  along with the overall spread and rolling spread of the variance records.
  They are floating-point statistics. The one behaviour of the spread that
  changes the outcome is modelled: a single-packet address has no sample
  spread, and clustering fails (`Failure(UndefinedSpread)`).
- Variance.ShortTerm: it states the size of the short-term subset and that
  each of its strengths belongs to a qualifying packet. It does not state the
  statistic computed over them (a floating-point spread).
- Variance.ShortTerm: pandas sorts with an unstable algorithm, while the model
  sorts stably. When two of a device's packets share a capture time, which
  strength counts as the close follower may differ. Rotation events do not
  depend on this (`Capture.SortedTimesDetermined`).
- Positioning.PositioningErrors: the mean is computed exactly over the reals,
  and the spread is a parameter. The undefined spread of a single-packet
  device (NaN) and floating-point rounding are not modelled. After a
  successful clustering every address, and so every device, has at least two
  packets. The error percentage is left out.
- Positioning.DeviceErrorBound: `pow10` is any strictly increasing function,
  not the concrete power of ten. The ordering is stated only for a
  non-negative spread.
- The crash when printing an empty error table is left out: it is a printing
  step.
