/** Segmentation of src/transform.rs: galloping, interpolation and bisection for
    the largest window within a target size. */
module Segments {
  import opened Words
  import opened Wrappers
  import opened Model
  import opened Sorting
  import opened Validation
  import opened AddressSearch
  import opened Wire
  import opened Layout
  import opened Image
  import opened Writer
  import opened Transcode
  import opened Builder
  import WindowSizes

  /** The encoded image of a window of the sorted functions, or why it fails. */
  type Encode = (nat, nat) -> Result<seq<uint8>>

  // ----------------------------------------------------------------- linear packing

  function SizeOf(encode: Encode, start: nat, end: nat): nat {
    var bytes := encode(start, end);
    if bytes.Ok? then |bytes.value| else 0
  }

  /** One function more as long as the window with it stays within the target. */
  function Extend(encode: Encode, start: nat, target: nat, end: nat, n: nat): (e: nat)
    requires end <= n
    ensures end <= e <= n
    decreases n - end
  {
    if end < n && SizeOf(encode, start, end + 1) <= target then Extend(encode, start, target, end + 1, n) else end
  }

  /** A linear scan from one function on. */
  function LinearEnd(encode: Encode, start: nat, target: nat, n: nat): nat
    requires start < n
  {
    Extend(encode, start, target, start + 1, n)
  }

  lemma {:induction false} ExtendIs(encode: Encode, start: nat, target: nat, end: nat, n: nat)
    requires start < end <= n
    ensures var e := Extend(encode, start, target, end, n);
      && (forall d :: end < d <= e ==> SizeOf(encode, start, d) <= target)
      && (forall next :: next == e + 1 && next <= n ==> SizeOf(encode, start, next) > target)
    decreases n - end
  {
    hide SizeOf;
    if end < n && SizeOf(encode, start, end + 1) <= target {
      ExtendIs(encode, start, target, end + 1, n);
    }
  }

  /** The linear scan takes one function, and then as many more as keep the window within
      the target; one more would not. */
  lemma LinearEndIs(encode: Encode, start: nat, target: nat, n: nat)
    requires start < n
    ensures var e := LinearEnd(encode, start, target, n);
      && start < e <= n
      && (forall d :: start + 1 < d <= e ==> SizeOf(encode, start, d) <= target)
      && (forall next :: next == e + 1 && next <= n ==> SizeOf(encode, start, next) > target)
  {
    hide SizeOf;
    ExtendIs(encode, start, target, start + 1, n);
  }

  ghost predicate AllEncode(encode: Encode, start: nat, n: nat) {
    forall e :: start < e <= n ==> encode(start, e).Ok?
  }

  /** Every window encodes, and a longer one is no smaller. */
  ghost predicate Monotone(encode: Encode, start: nat, n: nat) {
    && AllEncode(encode, start, n)
    && (forall d, e :: start < d <= e <= n ==> SizeOf(encode, start, d) <= SizeOf(encode, start, e))
  }

  /** Where a window fits and the next does not is where the scan stops. */
  lemma {:induction false} ExtendReaches(encode: Encode, start: nat, target: nat, end: nat, best: nat, n: nat)
    requires Monotone(encode, start, n) && start < end <= best <= n
    requires best > end ==> SizeOf(encode, start, best) <= target
    requires best < n ==> SizeOf(encode, start, best + 1) > target
    ensures Extend(encode, start, target, end, n) == best
    decreases best - end
  {
    if end < best {
      ExtendReaches(encode, start, target, end + 1, best, n);
    }
  }

  // ------------------------------------------------------------------ probe counting

  /** Bits of an interval size: one more than its binary logarithm. */
  function Bits(n: nat): nat {
    if n == 0 then 0 else 1 + Bits(n / 2)
  }

  lemma {:induction false} BitsMonotone(m: nat, n: nat)
    requires m <= n
    ensures Bits(m) <= Bits(n)
  {
    if m > 0 {
      BitsMonotone(m / 2, n / 2);
    }
  }

  lemma ExpTwo(k: nat)
    ensures Exp(2, k + 1) == 2 * Exp(2, k)
  {
  }

  lemma BitsHalf(n: nat)
    requires n > 0
    ensures Bits(n) == 1 + Bits(n / 2)
  {
  }

  /** `Bits` counts the powers of two at or below the size. */
  lemma {:induction false} BitsIsLog(n: nat)
    requires n > 0
    ensures Bits(n) > 0 && Exp(2, Bits(n) - 1) <= n < Exp(2, Bits(n))
  {
    hide Exp, Bits;
    BitsHalf(n);
    ExpTwo(Bits(n) - 1);
    if n > 1 {
      BitsIsLog(n / 2);
      ExpTwo(Bits(n / 2) - 1);
    } else {
      BitsOfOne();
    }
  }

  lemma BitsOfOne()
    ensures Bits(0) == 0 && Exp(2, 0) == 1
  {
  }

  // --------------------------------------------------------------------- the search

  /** The interpolated guess between the two measured bounds, if there is one. */
  function Guess(low: nat, high: nat, best: nat, ceiling: nat, bestSize: nat, ceilingSize: Option<nat>, target: nat): (guess: Option<nat>)
    requires low <= high
    ensures guess.Some? ==> low <= guess.value <= high
  {
    if ceilingSize.None? || ceilingSize.value <= bestSize || target < bestSize || ceiling < best then None
    else
      var scaled := (target - bestSize) * (ceiling - best);
      if scaled >= U64_LIMIT then None
      else
        var index := best + scaled / (ceilingSize.value - bestSize);
        if index >= U64_LIMIT then None else Some(if index < low then low else if index > high then high else index)
  }

  /** Measured: what fits below, what does not above. */
  ghost predicate Bracket(encode: Encode, start: nat, n: nat, target: nat, best: nat, bestBytes: seq<uint8>, ceiling: nat) {
    && start < best < ceiling <= n + 1
    && encode(start, best) == Ok(bestBytes)
    && (best > start + 1 ==> |bestBytes| <= target)
    && (ceiling <= n ==> encode(start, ceiling).Ok? && SizeOf(encode, start, ceiling) > target)
  }

  /** What is split: the functions of a model in order, and how windows are written. */
  datatype Job = Job(d: DecodedGsym, sorted: seq<Function>, version: Version, order: ByteOrder)

  ghost predicate ValidJob(job: Job) {
    Regular(job.d) && forall f :: f in job.sorted ==> f in job.d.functions
  }

  /** The model restricted to a window: what one segment holds. */
  function WindowModel(job: Job, a: nat, b: nat): DecodedGsym
    requires a <= b <= |job.sorted|
  {
    job.d.(functions := job.sorted[a..b])
  }

  /** The bytes of every window. */
  ghost function WindowBytes(job: Job): Encode {
    (a: nat, b: nat) => if a <= b <= |job.sorted| then ModelBytes(WindowModel(job, a, b), job.version, job.order) else Err(InvalidModel)
  }

  /** With no repeats in the file table a longer window takes no fewer bytes. */
  lemma WindowsGrow(job: Job, start: nat)
    requires start < |job.sorted| && Distinct(job.d.files) && AllEncode(WindowBytes(job), start, |job.sorted|)
    ensures Monotone(WindowBytes(job), start, |job.sorted|)
  {
    hide ModelBytes, Distinct;
    var n := |job.sorted|;
    forall d: nat, e: nat | start < d < e <= n
      ensures SizeOf(WindowBytes(job), start, d) <= SizeOf(WindowBytes(job), start, e)
    {
      assert WindowBytes(job)(start, d).Ok? && WindowBytes(job)(start, e).Ok?;
      assert job.sorted[start..e][..d - start] == job.sorted[start..d];
      WindowSizes.ModelGrows(WindowModel(job, start, d), WindowModel(job, start, e), job.version, job.order);
    }
  }

  /** One probe: `builder_for_functions` and `to_bytes` on a window. */
  method EncodeWindow(job: Job, a: nat, b: nat) returns (r: Result<seq<uint8>>)
    requires ValidJob(job) && a <= b <= |job.sorted|
    ensures SameOutcome(r, WindowBytes(job)(a, b))
    ensures r.Ok? ==> Transcoded(r.value, WindowModel(job, a, b), job.version, job.order)
  {
    hide ModelBytes, Transcoded, Regular;
    WindowIsRegular(job.d, job.sorted, a, b);
    r := TranscodeModel(WindowModel(job, a, b), Some(job.version), Some(job.order));
  }

  /** Doubling steps until a window is too large or takes everything. */
  method Gallop(job: Job, start: nat, target: nat)
    returns (r: Result<(nat, seq<uint8>, nat, Option<nat>)>)
    requires ValidJob(job) && start < |job.sorted|
    ensures r.Ok? ==> Bracket(WindowBytes(job), start, |job.sorted|, target, r.value.0, r.value.1, r.value.2)
    ensures r.Ok? ==> Transcoded(r.value.1, WindowModel(job, start, r.value.0), job.version, job.order)
    ensures AllEncode(WindowBytes(job), start, |job.sorted|) ==> r.Ok?
  {
    hide ModelBytes, Transcoded, Regular, ValidJob, WindowBytes;
    var n := |job.sorted|;
    ghost var encode := WindowBytes(job);
    var minimum := start + 1;
    var best := minimum;
    var first := EncodeWindow(job, start, best);
    if first.Err? {
      return Err(first.error);
    }
    var bestBytes := first.value;
    var ceiling, ceilingSize := n + 1, None;
    var span := 1;
    while best < n
      invariant span > 0 && minimum <= best <= n && best < minimum + span
      invariant ceiling == n + 1 && Bracket(encode, start, n, target, best, bestBytes, ceiling)
      invariant Transcoded(bestBytes, WindowModel(job, start, best), job.version, job.order)
      decreases n - best
    {
      var candidate := if minimum + span < n then minimum + span else n;
      var probe := EncodeWindow(job, start, candidate);
      if probe.Err? {
        return Err(probe.error);
      }
      var bytes := probe.value;
      if |bytes| > target {
        ceiling, ceilingSize := candidate, Some(|bytes|);
        break;
      }
      best, bestBytes := candidate, bytes;
      span := span * 2;
    }
    return Ok((best, bestBytes, ceiling, ceilingSize));
  }

  lemma CountThirds(count: nat)
    ensures (count + 1) / 3 == count / 3 + (if count % 3 == 2 then 1 else 0)
    ensures count + 1 <= 3 * (count / 3 + 1)
  {
  }

  /** The third probe of three bisects, so the interval loses a bit by then. */
  lemma ProbeShrinks(low: nat, high: nat, middle: nat, probes: nat, initial: nat)
    requires low <= middle <= high
    requires probes % 3 == 2 ==> middle == low + (high - low) / 2
    requires probes / 3 + Bits(high - low + 1) <= Bits(initial)
    ensures (probes + 1) / 3 + Bits(high - middle) <= Bits(initial)
    ensures (probes + 1) / 3 + Bits(middle - low) <= Bits(initial)
    ensures probes + 1 <= 3 * Bits(initial)
  {
    hide Bits;
    CountThirds(probes);
    BitsHalf(high - low + 1);
    if probes % 3 == 2 {
      BitsMonotone(high - middle, (high - low + 1) / 2);
      BitsMonotone(middle - low, (high - low + 1) / 2);
    } else {
      BitsMonotone(high - middle, high - low + 1);
      BitsMonotone(middle - low, high - low + 1);
    }
  }

  /** The end of the next window.  However sizes behave, a window of several
      functions is within the target, and refining an interval of `m` candidates
      takes at most `3 * Bits(m)` probes; with sizes that never shrink, the
      window is the one a linear scan finds. */
  method SelectEnd(job: Job, start: nat, target: nat)
    returns (r: Result<(nat, seq<uint8>)>, ghost probes: nat, ghost candidates: nat)
    requires ValidJob(job) && start < |job.sorted|
    ensures r.Ok? ==>
      var (best, bytes) := r.value;
      && start < best <= |job.sorted|
      && WindowBytes(job)(start, best) == Ok(bytes)
      && Transcoded(bytes, WindowModel(job, start, best), job.version, job.order)
      && (best > start + 1 ==> |bytes| <= target)
    ensures Monotone(WindowBytes(job), start, |job.sorted|) ==>
      r.Ok? && r.value.0 == LinearEnd(WindowBytes(job), start, target, |job.sorted|)
    ensures AllEncode(WindowBytes(job), start, |job.sorted|) ==> r.Ok?
    ensures candidates <= |job.sorted| && probes <= 3 * Bits(candidates)
  {
    hide Extend, Bits, Guess, ModelBytes, Transcoded, Regular, ValidJob, WindowBytes;
    var n := |job.sorted|;
    ghost var encode := WindowBytes(job);
    probes, candidates := 0, 0;
    var galloped := Gallop(job, start, target);
    if galloped.Err? {
      r := Err(galloped.error);
      return;
    }
    var best: nat, bestBytes, ceiling: nat := galloped.value.0, galloped.value.1, galloped.value.2;
    var ceilingSize: Option<nat> := galloped.value.3;
    var low: nat, high: nat := best + 1, ceiling - 1;
    candidates := high + 1 - low;
    var count: nat := 0;
    while low <= high && high <= n
      invariant low == best + 1 && high == ceiling - 1
      invariant Bracket(encode, start, n, target, best, bestBytes, ceiling)
      invariant Transcoded(bestBytes, WindowModel(job, start, best), job.version, job.order)
      invariant probes == count && count / 3 + Bits(high + 1 - low) <= Bits(candidates)
      invariant probes <= 3 * Bits(candidates)
      decreases high + 1 - low
    {
      var midpoint: nat := low + (high - low) / 2;
      var guess := Guess(low, high, best, ceiling, |bestBytes|, ceilingSize, target);
      var middle: nat := if count % 3 == 2 then midpoint else guess.UnwrapOr(midpoint);
      ProbeShrinks(low, high, middle, count, candidates);
      count := count + 1;
      probes := count;
      var bytes := EncodeWindow(job, start, middle);
      if bytes.Err? {
        r := Err(bytes.error);
        return;
      }
      if |bytes.value| <= target {
        best, bestBytes := middle, bytes.value;
        low := middle + 1;
      } else {
        ceiling, ceilingSize := middle, Some(|bytes.value|);
        high := middle - 1;
      }
    }
    if Monotone(encode, start, n) {
      ExtendReaches(encode, start, target, start + 1, best, n);
    }
    r := Ok((best, bestBytes));
  }

  // ------------------------------------------------------------------ all segments

  datatype Segment = Segment(first: uint64, end: uint64, count: nat, bytes: seq<uint8>)

  predicate RangeFirst(f: Function, g: Function) {
    f.range.start < g.range.start || (f.range.start == g.range.start && f.range.end <= g.range.end)
  }

  function MaxEnd(functions: seq<Function>): uint64 {
    if functions == [] then 0 else Max(functions[0].range.end, MaxEnd(functions[1..]))
  }

  /** Up to the next segment; the last one ends with its code, or never if its last
      function is empty. */
  function SegmentEnd(sorted: seq<Function>, a: nat, b: nat): uint64
    requires a < b <= |sorted|
  {
    if b < |sorted| then sorted[b].range.start
    else if sorted[b - 1].range.IsEmpty() then U64_MAX
    else MaxEnd(sorted[a..b])
  }

  /** Cut points from the first function to past the last. */
  predicate Cuts(cuts: seq<nat>, n: nat) {
    && |cuts| >= 2 && cuts[0] == 0 && cuts[|cuts| - 1] == n
    && forall i, j :: 0 <= i < j < |cuts| ==> cuts[i] < cuts[j]
  }

  /** What a segment says about its window, and what its bytes hold. */
  ghost predicate Covers(job: Job, target: nat, a: nat, b: nat, segment: Segment) {
    && a < b <= |job.sorted|
    && segment.first == job.sorted[a].range.start && segment.end == SegmentEnd(job.sorted, a, b)
    && segment.count == b - a
    && WindowBytes(job)(a, b) == Ok(segment.bytes)
    && Transcoded(segment.bytes, WindowModel(job, a, b), job.version, job.order)
    && (segment.count > 1 ==> |segment.bytes| <= target)
  }

  lemma CoversWindow(job: Job, target: nat, a: nat, b: nat, segment: Segment)
    requires a < b <= |job.sorted|
    requires WindowBytes(job)(a, b) == Ok(segment.bytes) && (b > a + 1 ==> |segment.bytes| <= target)
    requires Transcoded(segment.bytes, WindowModel(job, a, b), job.version, job.order)
    requires segment == Segment(job.sorted[a].range.start, SegmentEnd(job.sorted, a, b), b - a, segment.bytes)
    ensures Covers(job, target, a, b, segment)
  {
    hide SegmentEnd, WindowBytes, Transcoded, WindowModel;
  }

  /** Every window of the functions can be written. */
  ghost predicate AllWindows(job: Job) {
    forall a: nat, b: nat :: a < b <= |job.sorted| ==> WindowBytes(job)(a, b).Ok?
  }

  lemma FailedWindow(job: Job, start: nat)
    requires start < |job.sorted| && !AllEncode(WindowBytes(job), start, |job.sorted|)
    ensures !AllWindows(job)
  {
    hide WindowBytes;
  }

  lemma AllFromHere(job: Job, start: nat)
    requires AllWindows(job)
    ensures AllEncode(WindowBytes(job), start, |job.sorted|)
  {
    hide WindowBytes;
  }

  /** The functions of a model in segment order. */
  function JobFor(d: DecodedGsym, version: Version, order: ByteOrder): Job {
    Job(d, Sort(RangeFirst, d.functions), version, order)
  }

  /** The cuts and the segments between them: each a window written on its own. */
  ghost predicate Segmented(job: Job, target: nat, cuts: seq<nat>, segments: seq<Segment>) {
    && Cuts(cuts, |job.sorted|) && |segments| == |cuts| - 1
    && forall k :: 0 <= k < |segments| ==> Covers(job, target, cuts[k], cuts[k + 1], segments[k])
  }

  /** `segments`: consecutive windows of the sorted functions, each written on its own
      and the same as greedy packing wherever sizes never shrink, which they do not when
      no file entry is repeated. */
  method Split(d: DecodedGsym, target: nat, version: Option<Version>, order: Option<ByteOrder>)
    returns (r: Result<seq<Segment>>, ghost cuts: seq<nat>)
    requires Regular(d)
    ensures target == 0 || d.functions == [] ==> r == Err(InvalidModel)
    ensures
      var job := JobFor(d, version.UnwrapOr(d.version), order.UnwrapOr(d.order));
      && (r.Ok? ==>
          && Segmented(job, target, cuts, r.value)
          && forall k :: 0 <= k < |r.value| && Monotone(WindowBytes(job), cuts[k], |job.sorted|) ==>
               cuts[k + 1] == LinearEnd(WindowBytes(job), cuts[k], target, |job.sorted|))
      && (target > 0 && d.functions != [] && AllWindows(job) ==> r.Ok?)
      && (r.Ok? && AllWindows(job) && Distinct(d.files) ==> forall k :: 0 <= k < |r.value| ==>
            cuts[k + 1] == LinearEnd(WindowBytes(job), cuts[k], target, |job.sorted|))
  {
    hide Extend, Monotone, AllEncode, AllWindows, SegmentEnd, Covers, Sort, LinearEnd, WindowBytes, RangeFirst, Regular, Transcoded, Distinct;
    cuts := [0];
    if target == 0 || d.functions == [] {
      r := Err(InvalidModel);
      return;
    }
    var job := JobFor(d, version.UnwrapOr(d.version), order.UnwrapOr(d.order));
    SortMembers(RangeFirst, d.functions);
    var segments: seq<Segment> := [];
    var start := 0;
    while start < |job.sorted|
      invariant start <= |job.sorted| && |cuts| == |segments| + 1 && cuts[0] == 0 && cuts[|segments|] == start
      invariant forall i, j :: 0 <= i < j < |cuts| ==> cuts[i] < cuts[j]
      invariant forall k :: 0 <= k < |segments| ==> Covers(job, target, cuts[k], cuts[k + 1], segments[k])
      invariant forall k :: 0 <= k < |segments| && Monotone(WindowBytes(job), cuts[k], |job.sorted|) ==>
        cuts[k + 1] == LinearEnd(WindowBytes(job), cuts[k], target, |job.sorted|)
    {
      var selected;
      ghost var probes, candidates;
      selected, probes, candidates := SelectEnd(job, start, target);
      if selected.Err? {
        FailedWindow(job, start);
        r := Err(selected.error);
        return;
      }
      var best, bytes := selected.value.0, selected.value.1;
      var segment := Segment(job.sorted[start].range.start, SegmentEnd(job.sorted, start, best), best - start, bytes);
      CoversWindow(job, target, start, best, segment);
      segments := segments + [segment];
      cuts := cuts + [best];
      start := best;
    }
    if AllWindows(job) && Distinct(d.files) {
      forall k | 0 <= k < |segments|
        ensures Monotone(WindowBytes(job), cuts[k], |job.sorted|)
      {
        AllFromHere(job, cuts[k]);
        WindowsGrow(job, cuts[k]);
      }
    }
    r := Ok(segments);
  }

  /** The windows from the `k`-th on, one after the other. */
  function WindowsFrom(sorted: seq<Function>, cuts: seq<nat>, k: nat): seq<Function>
    requires Cuts(cuts, |sorted|) && k < |cuts|
    decreases |cuts| - k
  {
    if k + 1 == |cuts| then [] else sorted[cuts[k]..cuts[k + 1]] + WindowsFrom(sorted, cuts, k + 1)
  }

  /** No function is lost, duplicated or moved across windows. */
  lemma {:induction false} WindowsConserve(sorted: seq<Function>, cuts: seq<nat>, k: nat)
    requires Cuts(cuts, |sorted|) && k < |cuts|
    ensures WindowsFrom(sorted, cuts, k) == sorted[cuts[k]..]
    decreases |cuts| - k
  {
    if k + 1 < |cuts| {
      WindowsConserve(sorted, cuts, k + 1);
      assert sorted[cuts[k]..] == sorted[cuts[k]..cuts[k + 1]] + sorted[cuts[k + 1]..];
    }
  }

  /** The bytes decode to the window in the writer's order, with every meaning kept. */
  ghost predicate HoldsWindow(bytes: seq<uint8>, window: seq<Function>, files: seq<FileEntry>) {
    && Load(bytes).Ok? && DecodeAll(Load(bytes).value).Ok?
    && var back := DecodeAll(Load(bytes).value).value;
    SameMeaningList(AsWritten(window, files), files, back.functions, back.files)
  }

  lemma TranscodedHolds(bytes: seq<uint8>, d: DecodedGsym, version: Version, order: ByteOrder)
    requires Transcoded(bytes, d, version, order)
    ensures HoldsWindow(bytes, d.functions, d.files)
  {
    hide Load, DecodeAll, Verify, SameMeaningList, AsWritten;
  }

  /** Nothing is lost, duplicated or moved across segments: their windows concatenate to
      the sorted input, a permutation of the model's functions, their counts add up, and
      the bytes of each hold its window. */
  lemma SegmentsConserve(d: DecodedGsym, version: Version, order: ByteOrder, target: nat, cuts: seq<nat>, segments: seq<Segment>)
    requires Segmented(JobFor(d, version, order), target, cuts, segments)
    ensures
      var sorted := Sort(RangeFirst, d.functions);
      && Cuts(cuts, |sorted|) && |segments| == |cuts| - 1
      && WindowsFrom(sorted, cuts, 0) == sorted && multiset(sorted) == multiset(d.functions)
      && Total(segments) == |d.functions|
      && forall k :: 0 <= k < |segments| ==> HoldsWindow(segments[k].bytes, sorted[cuts[k]..cuts[k + 1]], d.files)
  {
    hide Sort, RangeFirst, Covers, HoldsWindow;
    var job := JobFor(d, version, order);
    WindowsConserve(job.sorted, cuts, 0);
    SortMultiset(RangeFirst, d.functions);
    forall k | 0 <= k < |segments|
      ensures segments[k].count == cuts[k + 1] - cuts[k]
      ensures HoldsWindow(segments[k].bytes, job.sorted[cuts[k]..cuts[k + 1]], d.files)
    {
      CoveredHolds(job, target, cuts[k], cuts[k + 1], segments[k]);
    }
    TotalIs(cuts, |job.sorted|, segments, |segments|);
    assert segments[..|segments|] == segments;
  }

  lemma CoveredHolds(job: Job, target: nat, a: nat, b: nat, segment: Segment)
    requires Covers(job, target, a, b, segment)
    ensures a < b <= |job.sorted| && segment.count == b - a
    ensures segment.first == job.sorted[a].range.start && segment.end == SegmentEnd(job.sorted, a, b)
    ensures HoldsWindow(segment.bytes, job.sorted[a..b], job.d.files)
  {
    hide SegmentEnd, WindowBytes, Transcoded, HoldsWindow;
    TranscodedHolds(segment.bytes, WindowModel(job, a, b), job.version, job.order);
  }

  function Total(segments: seq<Segment>): nat {
    if segments == [] then 0 else Total(segments[..|segments| - 1]) + segments[|segments| - 1].count
  }

  lemma {:induction false} TotalIs(cuts: seq<nat>, n: nat, segments: seq<Segment>, k: nat)
    requires Cuts(cuts, n) && |segments| == |cuts| - 1 && k <= |segments|
    requires forall j :: 0 <= j < |segments| ==> segments[j].count == cuts[j + 1] - cuts[j]
    ensures Total(segments[..k]) == cuts[k]
  {
    if k > 0 {
      TotalIs(cuts, n, segments, k - 1);
      assert segments[..k][..k - 1] == segments[..k - 1];
    }
  }

  // ---------------------------------------------------------------------- routing

  /** By start, then end; no range is reversed. */
  predicate SortedRanges(sorted: seq<Function>) {
    && (forall i, j :: 0 <= i < j < |sorted| ==> RangeFirst(sorted[i], sorted[j]))
    && (forall i :: 0 <= i < |sorted| ==> sorted[i].range.IsValid())
  }

  function RangesOf(functions: seq<Function>): seq<AddressRange> {
    seq(|functions|, i requires 0 <= i < |functions| => functions[i].range)
  }

  /** The address lies in the span of segment `k`. */
  predicate InSpan(sorted: seq<Function>, cuts: seq<nat>, k: nat, address: uint64)
    requires Cuts(cuts, |sorted|) && k + 1 < |cuts|
  {
    sorted[cuts[k]].range.start <= address < SegmentEnd(sorted, cuts[k], cuts[k + 1])
  }

  /** The search of a window that starts at table index `base`. */
  predicate SelectedIn(window: seq<AddressRange>, base: nat, address: uint64, i: nat) {
    base <= i && Selected(window, address, i - base)
  }

  /** Searching the segment finds what searching the whole table does. */
  ghost predicate Routes(sorted: seq<Function>, cuts: seq<nat>, k: nat, address: uint64)
    requires Cuts(cuts, |sorted|) && k + 1 < |cuts|
  {
    var window := RangesOf(sorted[cuts[k]..cuts[k + 1]]);
    forall i: nat :: Selected(RangesOf(sorted), address, i) <==> SelectedIn(window, cuts[k], address, i)
  }

  /** No cut separates functions with the same start (the last address aside,
      which no span holds). */
  predicate RunsWhole(sorted: seq<Function>, cuts: seq<nat>)
    requires Cuts(cuts, |sorted|)
  {
    forall k :: 0 < k < |cuts| - 1 ==> RunWholeAt(sorted, cuts[k])
  }

  predicate RunWholeAt(sorted: seq<Function>, cut: nat) {
    0 < cut < |sorted| ==> sorted[cut - 1].range.start < sorted[cut].range.start || sorted[cut].range.start == U64_MAX
  }

  lemma WholeRunsRoute(sorted: seq<Function>, cuts: seq<nat>, k: nat, address: uint64)
    requires SortedRanges(sorted) && Cuts(cuts, |sorted|) && k + 1 < |cuts|
    requires RunsWhole(sorted, cuts) && InSpan(sorted, cuts, k, address)
    ensures Routes(sorted, cuts, k, address)
  {
    hide MaxEnd;
    var a, b := cuts[k], cuts[k + 1];
    var all, window := RangesOf(sorted), RangesOf(sorted[a..b]);
    assert 0 < k ==> RunWholeAt(sorted, cuts[k]);
    assert forall j :: 0 <= j < a ==> all[j].start < all[a].start;
    assert forall j :: b <= j < |all| ==> all[j].start > address by {
      assert b < |all| ==> all[b].start > address;
    }
    forall i: nat
      ensures Candidate(all, address, i) <==> a <= i < b && Candidate(window, address, i - a)
    {
      SameCandidate(all, window, a, b, address, i);
    }
    CandidateInTable(window, address);
    SameSelected(all, window, a, b, address);
  }

  lemma CandidateInTable(ranges: seq<AddressRange>, address: uint64)
    ensures forall i: nat :: Candidate(ranges, address, i) ==> i < |ranges|
  {
  }

  lemma SameCandidate(all: seq<AddressRange>, window: seq<AddressRange>, a: nat, b: nat, address: uint64, i: nat)
    requires a < b <= |all| && window == all[a..b] && all[a].start <= address
    requires forall j :: 0 <= j < a ==> all[j].start < all[a].start
    requires forall j :: b <= j < |all| ==> all[j].start > address
    ensures Candidate(all, address, i) <==> a <= i < b && Candidate(window, address, i - a)
  {
    if Candidate(all, address, i) {
      assert all[a].start <= all[i].start;
      forall k | 0 <= k < |window| && window[k].start <= address
        ensures window[k].start <= all[i].start
      {
        assert window[k] == all[a + k];
      }
    }
    if a <= i < b && Candidate(window, address, i - a) {
      assert window[0] == all[a];
      forall k | 0 <= k < |all| && all[k].start <= address
        ensures all[k].start <= all[i].start
      {
        if a <= k < b {
          assert window[k - a] == all[k];
        }
      }
    }
  }

  lemma SameSelected(all: seq<AddressRange>, window: seq<AddressRange>, a: nat, b: nat, address: uint64)
    requires forall i: nat :: Candidate(all, address, i) <==> a <= i < b && Candidate(window, address, i - a)
    requires |window| == b - a && a < b
    requires forall i: nat :: Candidate(window, address, i) ==> i < |window|
    ensures forall i: nat :: Selected(all, address, i) <==> SelectedIn(window, a, address, i)
  {
    hide Candidate;
    forall i: nat
      ensures Selected(all, address, i) <==> SelectedIn(window, a, address, i)
    {
      if Selected(all, address, i) {
        forall j: nat | j < i - a
          ensures !Candidate(window, address, j)
        {
          assert !Candidate(all, address, j + a);
          assert j + a - a == j;
        }
      }
    }
  }

  /** A run of equal starts that continues past cut `k` ends at a later segment
      that begins with the run's address. */
  lemma SplitRunMisroutes(sorted: seq<Function>, cuts: seq<nat>, k: nat) returns (shard: nat)
    requires SortedRanges(sorted) && Cuts(cuts, |sorted|) && 0 < k < |cuts| - 1
    requires !RunWholeAt(sorted, cuts[k])
    ensures shard + 1 < |cuts|
    ensures InSpan(sorted, cuts, shard, sorted[cuts[k]].range.start)
    ensures !Routes(sorted, cuts, shard, sorted[cuts[k]].range.start)
    decreases |cuts| - k
  {
    hide MaxEnd, Candidate;
    var a, b := cuts[k], cuts[k + 1];
    var s := sorted[a].range.start;
    if b < |sorted| && sorted[b].range.start == s {
      assert RangeFirst(sorted[a], sorted[b - 1]) || a == b - 1;
      assert RangeFirst(sorted[b - 1], sorted[b]);
      assert sorted[b - 1].range.start == s;
      shard := SplitRunMisroutes(sorted, cuts, k + 1);
    } else {
      shard := k;
      if b == |sorted| {
        MaxEndBounds(sorted[a..b], b - a - 1);
        assert RangeFirst(sorted[a], sorted[b - 1]) || a == b - 1;
      } else {
        assert RangeFirst(sorted[a], sorted[b]);
      }
      FirstOfRunSelected(sorted, a, b, s);
      assert a - a == 0;
    }
  }

  lemma {:induction false} MaxEndBounds(functions: seq<Function>, i: nat)
    requires i < |functions|
    ensures functions[i].range.end <= MaxEnd(functions)
  {
    if i > 0 {
      MaxEndBounds(functions[1..], i - 1);
    }
  }

  lemma {:induction false} MaxEndReached(functions: seq<Function>) returns (i: nat)
    requires functions != []
    ensures i < |functions| && functions[i].range.end == MaxEnd(functions)
    decreases |functions|
  {
    i := 0;
    if |functions| > 1 {
      var k := MaxEndReached(functions[1..]);
      if functions[0].range.end < MaxEnd(functions[1..]) {
        i := k + 1;
      }
    }
  }

  /** A segment ends where the next one starts; the last one after everything in it, at
      the end of some function, or at the largest address when its last function is empty. */
  lemma SegmentEndIs(sorted: seq<Function>, a: nat, b: nat)
    requires a < b <= |sorted|
    ensures b < |sorted| ==> SegmentEnd(sorted, a, b) == sorted[b].range.start
    ensures b == |sorted| && sorted[b - 1].range.start == sorted[b - 1].range.end ==> SegmentEnd(sorted, a, b) == 0xffff_ffff_ffff_ffff
    ensures b == |sorted| && sorted[b - 1].range.start < sorted[b - 1].range.end ==>
      && (forall f :: f in sorted[a..b] ==> f.range.end <= SegmentEnd(sorted, a, b))
      && (exists f :: f in sorted[a..b] && f.range.end == SegmentEnd(sorted, a, b))
  {
    hide MaxEnd;
    var window := sorted[a..b];
    forall f | f in window
      ensures f.range.end <= MaxEnd(window)
    {
      var i: nat :| i < |window| && window[i] == f;
      MaxEndBounds(window, i);
    }
    var i := MaxEndReached(window);
    assert window[i] in window;
  }

  /** The first function of the window is selected there, but not in the whole
      table, where one with the same start comes before it. */
  lemma FirstOfRunSelected(sorted: seq<Function>, a: nat, b: nat, s: uint64)
    requires SortedRanges(sorted) && 0 < a < b <= |sorted|
    requires sorted[a - 1].range.start == s == sorted[a].range.start
    ensures Selected(RangesOf(sorted[a..b]), s, 0)
    ensures !Selected(RangesOf(sorted), s, a)
  {
    assert Candidate(RangesOf(sorted), s, a - 1);
  }

  /** In the list as `segments` sorts it, position by position: segments answer every
      address in their spans as the whole list would exactly when no cut separates
      functions with the same start. */
  lemma PositionsAreExact(sorted: seq<Function>, cuts: seq<nat>)
    requires SortedRanges(sorted) && Cuts(cuts, |sorted|)
    ensures (forall k: nat, address: uint64 :: k + 1 < |cuts| && InSpan(sorted, cuts, k, address) ==> Routes(sorted, cuts, k, address))
       <==> RunsWhole(sorted, cuts)
  {
    hide InSpan, Routes, SortedRanges, RunWholeAt;
    if RunsWhole(sorted, cuts) {
      forall k: nat, address: uint64 | k + 1 < |cuts| && InSpan(sorted, cuts, k, address)
        ensures Routes(sorted, cuts, k, address)
      {
        WholeRunsRoute(sorted, cuts, k, address);
      }
    } else {
      var k :| 0 < k < |cuts| - 1 && !RunWholeAt(sorted, cuts[k]);
      CutInside(cuts, |sorted|, k);
      var shard := SplitRunMisroutes(sorted, cuts, k);
      var address := sorted[cuts[k]].range.start;
      assert InSpan(sorted, cuts, shard, address) && !Routes(sorted, cuts, shard, address);
    }
  }

  lemma CutInside(cuts: seq<nat>, n: nat, k: nat)
    requires Cuts(cuts, n) && 0 < k < |cuts| - 1
    ensures 0 < cuts[k] < n
  {
  }

  /** Such a cut does misroute: two functions that start together, cut apart. */
  lemma SplitRunExample()
    ensures
      var f := Function(AddressRange(10, 20), [1], [], None, [], []);
      var g := Function(AddressRange(10, 30), [2], [], None, [], []);
      && SortedRanges([f, g]) && Cuts([0, 1, 2], 2)
      && InSpan([f, g], [0, 1, 2], 1, 15) && !Routes([f, g], [0, 1, 2], 1, 15)
  {
    var f := Function(AddressRange(10, 20), [1], [], None, [], []);
    var g := Function(AddressRange(10, 30), [2], [], None, [], []);
    MaxEndBounds([f, g][1..2], 0);
    assert Selected(RangesOf([f, g]), 15, 0);
  }

  /** Below the first segment nothing resolves, as in the whole table. */
  lemma BelowFirstResolvesNowhere(sorted: seq<Function>, address: uint64)
    requires SortedRanges(sorted) && sorted != [] && address < sorted[0].range.start
    ensures forall i: nat :: !Selected(RangesOf(sorted), address, i)
  {
  }

  /** A segment ends where the next one starts. */
  lemma SpansMeet(job: Job, target: nat, cuts: seq<nat>, segments: seq<Segment>, k: nat)
    requires Segmented(job, target, cuts, segments) && k + 1 < |segments|
    ensures segments[k].end == segments[k + 1].first
  {
    hide Covers;
    CoveredHolds(job, target, cuts[k], cuts[k + 1], segments[k]);
    CoveredHolds(job, target, cuts[k + 1], cuts[k + 2], segments[k + 1]);
  }
}
