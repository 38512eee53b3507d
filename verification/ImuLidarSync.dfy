/** The IMU and LiDAR packager: callbacks fill buffers, a timer step cuts packages out of them. */
module ImuLidarSync {
  import opened Bytes

  datatype Sample = Sample(stamp: real, reading: int)

  /** A scan: its stamp and the offset of each point from it, in milliseconds. */
  datatype Scan = Scan(stamp: real, offsets: seq<real>)

  datatype Package = Package(scan: Scan, begin: real, end: real, samples: seq<Sample>)

  datatype Settings = Settings(timeSync: bool, lidarToImu: real)

  datatype State = State(
    scans: seq<Scan>,
    times: seq<real>,
    samples: seq<Sample>,
    firstScan: bool,
    lastScan: real,
    lastSample: real,
    timeShift: real,
    shiftSet: bool,
    taken: bool,
    current: Package,
    meanDuration: real,
    durations: nat)

  const START := State([], [], [], true, 0.0, -1.0, 0.0, false, false, Package(Scan(0.0, []), 0.0, 0.0, []), 0.0, 0)

  function Abs(r: real): real {
    if r < 0.0 then -r else r
  }

  // ---------- the callbacks ----------

  predicate ScanGoesBack(s: State, scan: Scan) {
    !s.firstScan && scan.stamp < s.lastScan
  }

  /** Both scan callbacks: a clock that went back clears the scans, but not their times. */
  function Arrived(s: State, scan: Scan): State {
    var kept := if ScanGoesBack(s, scan) then [] else s.scans;
    s.(scans := kept + [scan], times := s.times + [scan.stamp], firstScan := false, lastScan := scan.stamp)
  }

  /** The Livox callback also fixes, once, the shift between the two clocks. */
  function Shifted(c: Settings, s: State, scan: Scan): State {
    if c.timeSync && !s.shiftSet && Abs(scan.stamp - s.lastSample) > 1.0 && s.samples != [] then
      s.(shiftSet := true, timeShift := scan.stamp + 0.1 - s.lastSample)
    else s
  }

  function LivoxArrived(c: Settings, s: State, scan: Scan): State {
    Arrived(Shifted(c, s, scan), scan)
  }

  /** The sample with the stamp it is stored under. */
  function Restamped(c: Settings, s: State, raw: Sample): Sample {
    if Abs(s.timeShift) > 0.1 && c.timeSync then raw.(stamp := s.timeShift + raw.stamp)
    else raw.(stamp := raw.stamp - c.lidarToImu)
  }

  predicate SampleGoesBack(s: State, sample: Sample) {
    sample.stamp < s.lastSample
  }

  function Sampled(c: Settings, s: State, raw: Sample): State {
    var sample := Restamped(c, s, raw);
    var kept := if SampleGoesBack(s, sample) then [] else s.samples;
    s.(samples := kept + [sample], lastSample := sample.stamp)
  }

  // ---------- the timer step ----------

  /** A scan's own duration in seconds, when it has more than one point. */
  function OwnDuration(scan: Scan): real {
    if |scan.offsets| <= 1 then 0.0 else scan.offsets[|scan.offsets| - 1] / 1000.0
  }

  /** Durations below half the mean are not believed. */
  predicate Accepts(s: State, scan: Scan) {
    |scan.offsets| > 1 && OwnDuration(scan) >= 0.5 * s.meanDuration
  }

  function Taken(s: State): State
    requires s.scans != [] && s.times != []
  {
    var scan, begin := s.scans[0], s.times[0];
    if Accepts(s, scan) then
      var d := OwnDuration(scan);
      s.(taken := true, current := s.current.(scan := scan, begin := begin, end := begin + d),
         durations := s.durations + 1,
         meanDuration := s.meanDuration + (d - s.meanDuration) / (s.durations + 1) as real)
    else
      s.(taken := true, current := s.current.(scan := scan, begin := begin, end := begin + s.meanDuration))
  }

  /** How many samples go into a package that ends at `end`: those before it, and one exactly
      at it if something came before. */
  function CutAt(samples: seq<Sample>, end: real, last: real): (n: nat)
    ensures n <= |samples|
  {
    if samples == [] || last >= end || samples[0].stamp > end then 0
    else 1 + CutAt(samples[1..], end, samples[0].stamp)
  }

  function Cut(samples: seq<Sample>, end: real): (n: nat)
    ensures n <= |samples|
  {
    if samples == [] then 0 else CutAt(samples, end, samples[0].stamp)
  }

  /** The state before the cut: a scan is taken up unless one already is. */
  function Prepared(s: State): State
    requires s.scans != [] && |s.times| >= |s.scans|
  {
    if s.taken then s else Taken(s)
  }

  predicate Waits(s: State) {
    s.scans == [] || s.samples == []
  }

  predicate Complete(t: State) {
    t.lastSample >= t.current.end
  }

  function PackageOf(t: State): Package {
    t.current.(samples := t.samples[..Cut(t.samples, t.current.end)])
  }

  function Emitted(t: State): State
    requires t.scans != [] && t.times != []
  {
    t.(samples := t.samples[Cut(t.samples, t.current.end)..], scans := t.scans[1..], times := t.times[1..],
       taken := false, current := PackageOf(t))
  }

  /** One timer step: the new state, and the package if one is complete. */
  function Synced(s: State): (State, Option<Package>)
    requires |s.times| >= |s.scans|
  {
    if Waits(s) then (s, None)
    else
      var t := Prepared(s);
      if Complete(t) then (Emitted(t), Some(PackageOf(t))) else (t, None)
  }

  // ---------- the code, step by step ----------

  class Packager {
    const settings: Settings
    var scans: seq<Scan>
    var times: seq<real>
    var samples: seq<Sample>
    var firstScan: bool
    var lastScan: real
    var lastSample: real
    var timeShift: real
    var shiftSet: bool
    var taken: bool
    var current: Package
    var meanDuration: real
    var durations: nat

    function View(): State
      reads this
    {
      State(scans, times, samples, firstScan, lastScan, lastSample, timeShift, shiftSet, taken, current,
            meanDuration, durations)
    }

    constructor (settings: Settings)
      ensures this.settings == settings && View() == START
    {
      this.settings := settings;
      scans, times, samples, firstScan, lastScan, lastSample := [], [], [], true, 0.0, -1.0;
      timeShift, shiftSet, taken, current := 0.0, false, false, Package(Scan(0.0, []), 0.0, 0.0, []);
      meanDuration, durations := 0.0, 0;
    }

    method StandardScan(scan: Scan)
      modifies this
      ensures View() == Arrived(old(View()), scan)
    {
      if !firstScan && scan.stamp < lastScan {
        scans := [];
      }
      if firstScan {
        firstScan := false;
      }
      scans := scans + [scan];
      times := times + [scan.stamp];
      lastScan := scan.stamp;
    }

    method LivoxScan(scan: Scan)
      modifies this
      ensures View() == LivoxArrived(settings, old(View()), scan)
    {
      if !firstScan && scan.stamp < lastScan {
        scans := [];
      }
      if firstScan {
        firstScan := false;
      }
      lastScan := scan.stamp;
      if settings.timeSync && !shiftSet && Abs(lastScan - lastSample) > 1.0 && samples != [] {
        shiftSet := true;
        timeShift := lastScan + 0.1 - lastSample;
      }
      scans := scans + [scan];
      times := times + [lastScan];
    }

    method ImuSample(raw: Sample)
      modifies this
      ensures View() == Sampled(settings, old(View()), raw)
    {
      var sample := raw.(stamp := raw.stamp - settings.lidarToImu);
      if Abs(timeShift) > 0.1 && settings.timeSync {
        sample := raw.(stamp := timeShift + raw.stamp);
      }
      if sample.stamp < lastSample {
        samples := [];
      }
      lastSample := sample.stamp;
      samples := samples + [sample];
    }

    method SyncPackages() returns (complete: bool)
      requires |times| >= |scans|
      modifies this
      ensures View() == Synced(old(View())).0
      ensures Synced(old(View())).1 == if complete then Some(current) else None
    {
      if scans == [] || samples == [] {
        return false;
      }
      if !taken {
        TakeScan();
      }
      if lastSample < current.end {
        return false;
      }
      CutSamples();
      scans := scans[1..];
      times := times[1..];
      taken := false;
      return true;
    }

    method TakeScan()
      requires scans != [] && times != []
      modifies this`current, this`durations, this`meanDuration, this`taken
      ensures View() == Taken(old(View()))
    {
      var scan := scans[0];
      current := current.(scan := scan, begin := times[0]);
      if |scan.offsets| <= 1 {
        current := current.(end := current.begin + meanDuration);
      } else if scan.offsets[|scan.offsets| - 1] / 1000.0 < 0.5 * meanDuration {
        current := current.(end := current.begin + meanDuration);
      } else {
        durations := durations + 1;
        var d := scan.offsets[|scan.offsets| - 1] / 1000.0;
        current := current.(end := current.begin + d);
        meanDuration := meanDuration + (d - meanDuration) / durations as real;
      }
      taken := true;
    }

    method CutSamples()
      requires samples != []
      modifies this`samples, this`current
      ensures var n := Cut(old(samples), old(current).end);
              current == old(current).(samples := old(samples)[..n]) && samples == old(samples)[n..]
    {
      ghost var all, n := samples, Cut(samples, current.end);
      var time := samples[0].stamp;
      var package: seq<Sample> := [];
      while samples != [] && time < current.end
        invariant current == old(current)
        invariant |package| <= |all| && package == all[..|package|] && samples == all[|package|..]
        invariant n == |package| + CutAt(samples, current.end, time)
        decreases |samples|
      {
        time := samples[0].stamp;
        if time > current.end { break; }
        package := package + [samples[0]];
        samples := samples[1..];
      }
      current := current.(samples := package);
    }
  }

  // ---------- what one package holds ----------

  predicate Sorted(samples: seq<Sample>) {
    forall j, k :: 0 <= j < k < |samples| ==> samples[j].stamp <= samples[k].stamp
  }

  lemma {:induction false} CutAtSplits(samples: seq<Sample>, end: real, last: real)
    requires Sorted(samples)
    ensures var n := CutAt(samples, end, last);
            && (forall k :: 0 <= k < n ==> samples[k].stamp <= end)
            && (forall k :: 0 <= k < n - 1 ==> samples[k].stamp < end)
            && (last < end ==> forall k :: n <= k < |samples| ==> samples[k].stamp >= end)
  {
    if !(samples == [] || last >= end || samples[0].stamp > end) {
      var rest := samples[1..];
      CutAtSplits(rest, end, samples[0].stamp);
      var n := CutAt(samples, end, last);
      assert n == 1 + CutAt(rest, end, samples[0].stamp);
      forall k | 0 <= k < n ensures samples[k].stamp <= end && (k < n - 1 ==> samples[k].stamp < end) {
        assert k > 0 ==> samples[k] == rest[k - 1];
      }
      forall k | n <= k < |samples| ensures samples[k].stamp >= end {
        assert samples[k] == rest[k - 1];
        assert samples[0].stamp <= samples[k].stamp;
      }
    }
  }

  /** The samples that go out are all before the end, save the last, which may stand at it;
      those that stay are not before it. */
  predicate SplitAt(all: seq<Sample>, out: seq<Sample>, rest: seq<Sample>, end: real) {
    && all == out + rest
    && (forall k :: 0 <= k < |out| ==> out[k].stamp <= end)
    && (forall k :: 0 <= k < |out| - 1 ==> out[k].stamp < end)
    && (forall k :: 0 <= k < |rest| ==> rest[k].stamp >= end)
  }

  /** A package takes all buffered samples before its scan's end, none after it, and at most
      one, its last, exactly at it. */
  lemma CutSplits(samples: seq<Sample>, end: real)
    requires Sorted(samples)
    ensures var n := Cut(samples, end);
            && SplitAt(samples, samples[..n], samples[n..], end)
            && (n > 0 <==> samples != [] && samples[0].stamp < end)
  {
    hide Sorted, SplitAt;
    CutStart(samples, end);
    if samples != [] && samples[0].stamp < end {
      hide Cut, CutAt;
      CutAtSplits(samples, end, samples[0].stamp);
      SplitHere(samples, Cut(samples, end), end);
    } else {
      hide Cut, CutAt;
      SortedFrom(samples, end);
      SplitHere(samples, 0, end);
    }
  }

  /** Whether anything is cut off at all is decided by the first sample. */
  lemma CutStart(samples: seq<Sample>, end: real)
    ensures var n := Cut(samples, end);
            && (samples != [] ==> n == CutAt(samples, end, samples[0].stamp))
            && (n > 0 <==> samples != [] && samples[0].stamp < end)
  {
  }

  lemma SortedFrom(samples: seq<Sample>, end: real)
    requires Sorted(samples) && (samples != [] ==> samples[0].stamp >= end)
    ensures forall k :: 0 <= k < |samples| ==> samples[k].stamp >= end
  {
    forall k | 0 < k < |samples| ensures samples[k].stamp >= end {
      assert samples[0].stamp <= samples[k].stamp;
    }
  }

  lemma SplitHere(samples: seq<Sample>, n: nat, end: real)
    requires n <= |samples|
    requires forall k :: 0 <= k < n ==> samples[k].stamp <= end
    requires forall k :: 0 <= k < n - 1 ==> samples[k].stamp < end
    requires forall k :: n <= k < |samples| ==> samples[k].stamp >= end
    ensures SplitAt(samples, samples[..n], samples[n..], end)
  {
    assert samples == samples[..n] + samples[n..];
  }

  // ---------- all interleavings ----------

  datatype Event =
    | StandardScanArrives(scan: Scan)
    | LivoxScanArrives(scan: Scan)
    | SampleArrives(raw: Sample)
    | Timer

  /** What has happened so far: everything that came in, everything that went out, the
      durations that were believed, how much was thrown away, and, for each scan that was
      taken up, how many scans had been thrown away by then. */
  datatype Log = Log(
    scans: seq<Scan>,
    samples: seq<Sample>,
    packages: seq<Package>,
    accepted: seq<real>,
    lostScans: nat,
    lostSamples: nat,
    clearedBefore: seq<nat>)

  datatype System = System(state: State, log: Log)

  const NOTHING_YET := Log([], [], [], [], 0, 0, [])

  function LogScan(log: Log, s: State, scan: Scan): Log {
    log.(scans := log.scans + [scan], lostScans := log.lostScans + if ScanGoesBack(s, scan) then |s.scans| else 0)
  }

  function LogSample(c: Settings, log: Log, s: State, raw: Sample): Log {
    var sample := Restamped(c, s, raw);
    log.(samples := log.samples + [sample],
         lostSamples := log.lostSamples + if SampleGoesBack(s, sample) then |s.samples| else 0)
  }

  function LogPrepared(log: Log, s: State): Log
    requires s.scans != []
  {
    if s.taken then log
    else
      log.(clearedBefore := log.clearedBefore + [log.lostScans],
           accepted := if Accepts(s, s.scans[0]) then log.accepted + [OwnDuration(s.scans[0])] else log.accepted)
  }

  function LogEmitted(log: Log, t: State): Log {
    log.(packages := log.packages + [PackageOf(t)])
  }

  function LogTimer(log: Log, s: State): Log
    requires |s.times| >= |s.scans|
  {
    if Waits(s) then log
    else if Complete(Prepared(s)) then LogEmitted(LogPrepared(log, s), Prepared(s))
    else LogPrepared(log, s)
  }

  function Next(c: Settings, y: System, e: Event): (z: System)
    requires |y.state.times| >= |y.state.scans|
    ensures |z.state.times| >= |z.state.scans|
  {
    match e
    case StandardScanArrives(scan) => System(Arrived(y.state, scan), LogScan(y.log, y.state, scan))
    case LivoxScanArrives(scan) => System(LivoxArrived(c, y.state, scan), LogScan(y.log, y.state, scan))
    case SampleArrives(raw) => System(Sampled(c, y.state, raw), LogSample(c, y.log, y.state, raw))
    case Timer => System(Synced(y.state).0, LogTimer(y.log, y.state))
  }

  /** A run from the start, one event after another. */
  function Run(c: Settings, events: seq<Event>): (y: System)
    ensures |y.state.times| >= |y.state.scans|
  {
    if events == [] then System(START, NOTHING_YET)
    else Next(c, Run(c, events[..|events| - 1]), events[|events| - 1])
  }

  function Sum(r: seq<real>): real {
    if r == [] then 0.0 else Sum(r[..|r| - 1]) + r[|r| - 1]
  }

  function Delivered(packages: seq<Package>): seq<Sample> {
    if packages == [] then [] else Delivered(packages[..|packages| - 1]) + packages[|packages| - 1].samples
  }

  function Stamps(scans: seq<Scan>): (r: seq<real>)
    ensures |r| == |scans|
  {
    seq(|scans|, k requires 0 <= k < |scans| => scans[k].stamp)
  }

  predicate SamplesInOrder(s: State) {
    Sorted(s.samples) && forall k :: 0 <= k < |s.samples| ==> s.samples[k].stamp <= s.lastSample
  }

  predicate SamplesConserved(y: System) {
    && |y.log.samples| == |Delivered(y.log.packages)| + |y.state.samples| + y.log.lostSamples
    && (y.log.lostSamples == 0 ==> y.log.samples == Delivered(y.log.packages) + y.state.samples)
  }

  /** The buffered times start at the next package; the buffered scans as many further on as
      were thrown away. */
  predicate ScansInOrder(y: System) {
    var s, log, done := y.state, y.log, |y.log.packages|;
    && done + log.lostScans <= |log.scans|
    && s.times == Stamps(log.scans)[done..]
    && s.scans == log.scans[done + log.lostScans..]
    && |log.clearedBefore| == done + (if s.taken then 1 else 0)
    && (s.taken ==> s.scans != [] && IsFor(log.scans, s.current, done, log.clearedBefore[done]))
  }

  /** This package is the k-th one: its begin is the stamp of the k-th scan that came in, and
      its scan is as many further on as had been thrown away. */
  predicate IsFor(scans: seq<Scan>, p: Package, k: nat, cleared: nat) {
    k + cleared < |scans| && p.begin == scans[k].stamp && p.scan == scans[k + cleared]
  }

  predicate PackagesPaired(log: Log) {
    && |log.packages| <= |log.clearedBefore|
    && (forall k :: 0 <= k < |log.packages| ==> IsFor(log.scans, log.packages[k], k, log.clearedBefore[k]))
    && (forall k :: 0 <= k < |log.clearedBefore| ==> log.clearedBefore[k] <= log.lostScans)
  }

  predicate PackageSound(p: Package) {
    && Sorted(p.samples)
    && (forall k :: 0 <= k < |p.samples| ==> p.samples[k].stamp <= p.end)
    && (forall k :: 0 <= k < |p.samples| - 1 ==> p.samples[k].stamp < p.end)
  }

  predicate PackagesSound(packages: seq<Package>) {
    forall k :: 0 <= k < |packages| ==> PackageSound(packages[k])
  }

  predicate MeanIsAverage(y: System) {
    && y.state.durations == |y.log.accepted|
    && y.state.meanDuration * |y.log.accepted| as real == Sum(y.log.accepted)
    && (y.log.accepted == [] ==> y.state.meanDuration == 0.0)
  }

  /** Kept by every step of every interleaving. */
  predicate Invariant(y: System)
    ensures Invariant(y) ==> |y.state.times| >= |y.state.scans|
  {
    && SamplesInOrder(y.state) && SamplesConserved(y)
    && ScansInOrder(y) && PackagesPaired(y.log) && PackagesSound(y.log.packages)
    && MeanIsAverage(y)
  }

  /** Every run of callbacks and timer steps keeps the invariant. */
  lemma {:induction false} RunKeeps(c: Settings, events: seq<Event>)
    ensures Invariant(Run(c, events))
  {
    hide Invariant, Next;
    if events == [] {
      StartKeeps();
    } else {
      RunKeeps(c, events[..|events| - 1]);
      NextKeeps(c, Run(c, events[..|events| - 1]), events[|events| - 1]);
    }
  }

  lemma StartKeeps()
    ensures Invariant(System(START, NOTHING_YET))
  {
  }

  lemma NextKeeps(c: Settings, y: System, e: Event)
    requires Invariant(y)
    ensures Invariant(Next(c, y, e))
  {
    match e
    case StandardScanArrives(scan) => ScanKeeps(y, y.state, scan);
    case LivoxScanArrives(scan) => ScanKeeps(y, Shifted(c, y.state, scan), scan);
    case SampleArrives(raw) => SampleKeeps(c, y, raw);
    case Timer => TimerKeeps(y);
  }

  lemma IsForGrows(scans: seq<Scan>, p: Package, k: nat, cleared: nat, scan: Scan)
    requires IsFor(scans, p, k, cleared)
    ensures IsFor(scans + [scan], p, k, cleared)
  {
  }

  lemma ScanKeeps(y: System, s: State, scan: Scan)
    requires Invariant(y) && s == y.state.(shiftSet := s.shiftSet, timeShift := s.timeShift)
    ensures Invariant(System(Arrived(s, scan), LogScan(y.log, y.state, scan)))
  {
    hide Sum, Delivered, PackagesSound;
    var log, longer := y.log, LogScan(y.log, y.state, scan);
    forall k | 0 <= k < |log.packages| ensures IsFor(longer.scans, log.packages[k], k, log.clearedBefore[k]) {
      IsForGrows(log.scans, log.packages[k], k, log.clearedBefore[k], scan);
    }
    ScanKeepsOrder(y, s, scan);
  }

  lemma ScanKeepsOrder(y: System, s: State, scan: Scan)
    requires ScansInOrder(y) && s == y.state.(shiftSet := s.shiftSet, timeShift := s.timeShift)
    ensures ScansInOrder(System(Arrived(s, scan), LogScan(y.log, y.state, scan)))
  {
    hide IsFor;
    var log, longer, done := y.log, LogScan(y.log, y.state, scan), |y.log.packages|;
    StampsGrow(log.scans, scan, done);
    if s.taken {
      IsForGrows(log.scans, s.current, done, log.clearedBefore[done], scan);
    }
  }

  lemma StampsGrow(scans: seq<Scan>, scan: Scan, k: nat)
    requires k <= |scans|
    ensures Stamps(scans + [scan])[k..] == Stamps(scans)[k..] + [scan.stamp]
  {
    assert Stamps(scans + [scan]) == Stamps(scans) + [scan.stamp];
  }

  lemma SampleKeeps(c: Settings, y: System, raw: Sample)
    requires Invariant(y)
    ensures Invariant(System(Sampled(c, y.state, raw), LogSample(c, y.log, y.state, raw)))
  {
    hide Sum, Delivered, IsFor, PackageSound, Stamps, Restamped;
  }

  lemma TimerKeeps(y: System)
    requires Invariant(y)
    ensures Invariant(System(Synced(y.state).0, LogTimer(y.log, y.state)))
  {
    hide SamplesInOrder, SamplesConserved, ScansInOrder, PackagesPaired, PackagesSound, MeanIsAverage, Taken;
    if !Waits(y.state) {
      PreparedKeeps(y);
      var p := System(Prepared(y.state), LogPrepared(y.log, y.state));
      if Complete(p.state) {
        EmittedKeeps(p);
      }
    }
  }

  lemma PreparedKeeps(y: System)
    requires Invariant(y) && !Waits(y.state)
    ensures Invariant(System(Prepared(y.state), LogPrepared(y.log, y.state)))
    ensures Prepared(y.state).taken && Prepared(y.state).samples == y.state.samples && Prepared(y.state).scans != []
  {
    hide Sum, Delivered, IsFor, PackageSound, Sorted, Stamps, Abs;
    if !y.state.taken {
      TakenKeepsOrder(y);
      TakenKeepsMean(y);
    }
  }

  lemma TakenKeepsOrder(y: System)
    requires ScansInOrder(y) && PackagesPaired(y.log) && y.state.scans != [] && y.state.times != [] && !y.state.taken
    ensures ScansInOrder(System(Taken(y.state), LogPrepared(y.log, y.state)))
    ensures PackagesPaired(LogPrepared(y.log, y.state))
  {
    hide Accepts, OwnDuration;
    var log, done := y.log, |y.log.packages|;
    assert y.state.scans[0] == log.scans[done + log.lostScans];
    assert y.state.times[0] == Stamps(log.scans)[done];
  }

  lemma TakenKeepsMean(y: System)
    requires MeanIsAverage(y) && y.state.scans != [] && y.state.times != [] && !y.state.taken
    ensures MeanIsAverage(System(Taken(y.state), LogPrepared(y.log, y.state)))
  {
    hide Accepts, OwnDuration;
    var accepted, d := y.log.accepted, OwnDuration(y.state.scans[0]);
    assert (accepted + [d])[..|accepted|] == accepted;
    NextMean(y.state.meanDuration, |accepted| as real, d);
  }

  /** One more term moves the mean by its distance from it over the new count. */
  lemma NextMean(mean: real, n: real, d: real)
    requires n >= 0.0
    ensures (mean + (d - mean) / (n + 1.0)) * (n + 1.0) == mean * n + d
  {
    var step := (d - mean) / (n + 1.0);
    assert step * (n + 1.0) == d - mean;
    assert (mean + step) * (n + 1.0) == mean * (n + 1.0) + step * (n + 1.0);
    assert mean * (n + 1.0) == mean * n + mean;
  }

  lemma EmittedKeeps(y: System)
    requires Invariant(y) && y.state.taken && y.state.scans != [] && y.state.times != []
    ensures Invariant(System(Emitted(y.state), LogEmitted(y.log, y.state)))
  {
    hide Sum, Delivered, IsFor, PackageSound, Stamps, Cut;
    EmittedKeepsSamples(y);
    EmittedKeepsOrder(y);
    EmittedIsSound(y);
  }

  lemma EmittedIsSound(y: System)
    requires SamplesInOrder(y.state)
    ensures PackageSound(PackageOf(y.state))
  {
    hide Cut;
    CutSplits(y.state.samples, y.state.current.end);
  }

  lemma EmittedKeepsSamples(y: System)
    requires SamplesConserved(y) && SamplesInOrder(y.state) && y.state.scans != [] && y.state.times != []
    ensures SamplesConserved(System(Emitted(y.state), LogEmitted(y.log, y.state)))
    ensures SamplesInOrder(Emitted(y.state))
  {
    hide Cut, Delivered;
    var n := Cut(y.state.samples, y.state.current.end);
    DeliveredGrows(y.log.packages, PackageOf(y.state));
    SplitJoins(Delivered(y.log.packages), y.state.samples, n);
  }

  lemma SplitJoins(front: seq<Sample>, s: seq<Sample>, n: nat)
    requires n <= |s|
    ensures front + s == front + s[..n] + s[n..]
  {
  }

  lemma DeliveredGrows(packages: seq<Package>, p: Package)
    ensures Delivered(packages + [p]) == Delivered(packages) + p.samples
  {
    assert (packages + [p])[..|packages|] == packages;
  }

  lemma EmittedKeepsOrder(y: System)
    requires ScansInOrder(y) && PackagesPaired(y.log) && y.state.taken && y.state.scans != [] && y.state.times != []
    ensures ScansInOrder(System(Emitted(y.state), LogEmitted(y.log, y.state)))
    ensures PackagesPaired(LogEmitted(y.log, y.state))
  {
    hide Cut, Stamps, IsFor;
    var log, p := y.log, PackageOf(y.state);
    SameScan(log.scans, y.state.current, p, |log.packages|, log.clearedBefore[|log.packages|]);
  }

  lemma SameScan(scans: seq<Scan>, p: Package, q: Package, k: nat, cleared: nat)
    requires IsFor(scans, p, k, cleared) && q == p.(samples := q.samples)
    ensures IsFor(scans, q, k, cleared)
  {
  }

  // ---------- consequences ----------

  /** Nothing buffered was thrown away: no sample is lost, repeated or reordered. This is
      also necessary. */
  lemma SamplesPassInOrder(c: Settings, events: seq<Event>)
    ensures var y := Run(c, events);
            y.log.lostSamples == 0 <==> y.log.samples == Delivered(y.log.packages) + y.state.samples
  {
    hide Run, SamplesInOrder, ScansInOrder, PackagesPaired, PackagesSound, MeanIsAverage;
    RunKeeps(c, events);
  }

  /** In every reachable state a package splits the buffer at its scan's end: all samples
      before the end and at most one at it go out, the others stay. */
  lemma PackageIsComplete(c: Settings, events: seq<Event>)
    ensures var s := Run(c, events).state; var (t, package) := Synced(s);
            package.Some? ==>
              var p := package.value;
              SplitAt(s.samples, p.samples, t.samples, p.end) && s.lastSample >= p.end
  {
    hide Run, SamplesConserved, ScansInOrder, PackagesPaired, PackagesSound, MeanIsAverage, Cut, SplitAt;
    RunKeeps(c, events);
    var s := Run(c, events).state;
    if !Waits(s) {
      CutSplits(s.samples, Prepared(s).current.end);
    }
  }

  /** The k-th package begins at the stamp of the k-th scan that came in, and holds the scan
      that came in as many later as had been thrown away when it was taken up. So it begins at
      its own scan's stamp exactly when these two stamps agree. */
  lemma PackagesPairedIff(c: Settings, events: seq<Event>, k: nat)
    requires k < |Run(c, events).log.packages|
    ensures var log := Run(c, events).log;
            k < |log.clearedBefore| && log.clearedBefore[k] <= log.lostScans &&
            var p, own := log.packages[k], k + log.clearedBefore[k];
            && own < |log.scans| && p.begin == log.scans[k].stamp && p.scan == log.scans[own]
            && (p.begin == p.scan.stamp <==> log.scans[k].stamp == log.scans[own].stamp)
  {
    hide Run, SamplesInOrder, SamplesConserved, ScansInOrder, PackagesSound, MeanIsAverage;
    RunKeeps(c, events);
    var log := Run(c, events).log;
    assert IsFor(log.scans, log.packages[k], k, log.clearedBefore[k]);
  }

  /** When no two scans share a stamp, a package begins at its own scan's time exactly when no
      scan had been thrown away before it was taken up. */
  lemma PackagePairedIffNothingCleared(c: Settings, events: seq<Event>, k: nat)
    requires k < |Run(c, events).log.packages|
    requires var scans := Run(c, events).log.scans;
             forall i, j :: 0 <= i < j < |scans| ==> scans[i].stamp != scans[j].stamp
    ensures var log := Run(c, events).log;
            k < |log.clearedBefore| &&
            (log.packages[k].begin == log.packages[k].scan.stamp <==> log.clearedBefore[k] == 0)
  {
    hide Run;
    PackagesPairedIff(c, events, k);
  }

  /** The scan about to be taken up: the same condition, seen in the state before. */
  lemma NextPackagePairedIff(c: Settings, events: seq<Event>)
    requires var s := Run(c, events).state; !s.taken && s.scans != []
    ensures var y := Run(c, events); var done := |y.log.packages|;
            && done + y.log.lostScans < |y.log.scans|
            && (Taken(y.state).current.begin == Taken(y.state).current.scan.stamp <==>
                y.log.scans[done].stamp == y.log.scans[done + y.log.lostScans].stamp)
  {
    hide Run, SamplesInOrder, SamplesConserved, PackagesPaired, PackagesSound, MeanIsAverage, Accepts;
    RunKeeps(c, events);
    var y := Run(c, events);
    var done := |y.log.packages|;
    assert y.state.scans[0] == y.log.scans[done + y.log.lostScans];
    assert y.state.times[0] == Stamps(y.log.scans)[done];
  }

  /** No scans were thrown away: the k-th package holds the k-th scan, begins at that scan's
      own stamp, and the rest of the scans are waiting. */
  lemma PackagesPairedUnlessCleared(c: Settings, events: seq<Event>)
    ensures var y := Run(c, events); var done := |y.log.packages|;
            y.log.lostScans == 0 ==>
              && done <= |y.log.scans| && y.state.scans == y.log.scans[done..]
              && forall k :: 0 <= k < done ==>
                   y.log.packages[k].scan == y.log.scans[k] && y.log.packages[k].begin == y.log.scans[k].stamp
  {
    hide Run, SamplesInOrder, SamplesConserved, PackagesSound, MeanIsAverage;
    RunKeeps(c, events);
    var log := Run(c, events).log;
    if log.lostScans == 0 {
      forall k | 0 <= k < |log.packages|
        ensures log.packages[k].scan == log.scans[k] && log.packages[k].begin == log.scans[k].stamp
      {
        assert IsFor(log.scans, log.packages[k], k, log.clearedBefore[k]);
      }
    }
  }

  // ---------- clocks that go forward ----------

  function StampOf(e: Event): real
    requires !e.Timer?
  {
    if e.SampleArrives? then e.raw.stamp else e.scan.stamp
  }

  predicate IsScan(e: Event) {
    e.StandardScanArrives? || e.LivoxScanArrives?
  }

  /** The scans that come in carry stamps that do not decrease. */
  predicate ScansForward(events: seq<Event>) {
    forall j, k :: 0 <= j < k < |events| && IsScan(events[j]) && IsScan(events[k]) ==>
      StampOf(events[j]) <= StampOf(events[k])
  }

  /** So do the samples, as they come in. */
  predicate SamplesForward(events: seq<Event>) {
    forall j, k :: 0 <= j < k < |events| && events[j].SampleArrives? && events[k].SampleArrives? ==>
      StampOf(events[j]) <= StampOf(events[k])
  }

  /** The stamp of the last sample, as it came in. */
  function LastRaw(events: seq<Event>): (r: Option<real>)
    ensures r.Some? <==> exists k :: 0 <= k < |events| && events[k].SampleArrives?
    ensures r.Some? ==> exists k :: 0 <= k < |events| && events[k].SampleArrives? && StampOf(events[k]) == r.value
  {
    if events == [] then None
    else
      var n := |events| - 1;
      if events[n].SampleArrives? then Some(events[n].raw.stamp) else LastRaw(events[..n])
  }

  function LastScan(events: seq<Event>): (r: Option<real>)
    ensures r.Some? ==> exists k :: 0 <= k < |events| && IsScan(events[k]) && StampOf(events[k]) == r.value
  {
    if events == [] then None
    else
      var n := |events| - 1;
      if IsScan(events[n]) then Some(events[n].scan.stamp) else LastScan(events[..n])
  }

  /** What the packager remembers of the scan clock. */
  lemma {:induction false} ScanClock(c: Settings, events: seq<Event>)
    ensures var s := Run(c, events).state;
            (if s.firstScan then None else Some(s.lastScan)) == LastScan(events)
  {
    if events != [] {
      hide Run, LastScan;
      var n := |events| - 1;
      ScanClock(c, events[..n]);
      RunStep(c, events);
      LastScanStep(events);
      ScanClockStep(c, Run(c, events[..n]), events[n]);
    } else {
      RunStart(c);
    }
  }

  lemma LastScanStep(events: seq<Event>)
    requires events != []
    ensures var n := |events| - 1;
            LastScan(events) == if IsScan(events[n]) then Some(events[n].scan.stamp) else LastScan(events[..n])
  {
  }

  lemma ScanClockStep(c: Settings, y: System, e: Event)
    requires |y.state.times| >= |y.state.scans|
    ensures var z := Next(c, y, e);
            if IsScan(e) then !z.state.firstScan && z.state.lastScan == e.scan.stamp
            else z.state.firstScan == y.state.firstScan && z.state.lastScan == y.state.lastScan
  {
    hide Complete, PackageOf, Accepts, Restamped, SampleGoesBack;
  }

  /** While the scans' stamps do not decrease, no scan is thrown away, whatever the samples do. */
  lemma {:induction false} ForwardScansAreKept(c: Settings, events: seq<Event>)
    requires ScansForward(events)
    ensures Run(c, events).log.lostScans == 0
  {
    if events != [] {
      hide Run, Next;
      var n := |events| - 1;
      ForwardScansAreKept(c, events[..n]);
      ScanClock(c, events[..n]);
      RunStep(c, events);
      var y := Run(c, events[..n]);
      if IsScan(events[n]) && LastScan(events[..n]).Some? {
        var k :| 0 <= k < n && IsScan(events[..n][k]) && StampOf(events[..n][k]) == LastScan(events[..n]).value;
        assert events[..n][k] == events[k];
      }
      NextKeepsScans(c, y, events[n]);
    } else {
      RunStart(c);
    }
  }

  lemma NextKeepsScans(c: Settings, y: System, e: Event)
    requires |y.state.times| >= |y.state.scans| && (IsScan(e) ==> !ScanGoesBack(y.state, e.scan))
    ensures Next(c, y, e).log.lostScans == y.log.lostScans
  {
    hide Arrived, Shifted, Synced, Complete, PackageOf, Accepts, Restamped;
  }

  /** The position of the first sample that comes in after the clock shift was fixed. */
  function FirstShifted(c: Settings, events: seq<Event>): (k: Option<nat>)
    ensures k.Some? ==> k.value < |events| && events[k.value].SampleArrives?
  {
    if events == [] then None
    else
      var n := |events| - 1;
      match FirstShifted(c, events[..n])
      case Some(k) => Some(k)
      case None => if events[n].SampleArrives? && Run(c, events[..n]).state.shiftSet then Some(n) else None
  }

  /** The shift moves this sample below the one before it, while samples are buffered. */
  predicate ShiftedBelow(c: Settings, events: seq<Event>, k: nat)
    requires k < |events| && events[k].SampleArrives?
  {
    var s, previous := Run(c, events[..k]).state, LastRaw(events[..k]);
    previous.Some? && s.samples != [] && s.timeShift + events[k].raw.stamp < previous.value - c.lidarToImu
  }

  /** How many samples the packager throws away while the samples' own stamps do not decrease. */
  function ShiftLoss(c: Settings, events: seq<Event>): nat {
    match FirstShifted(c, events)
    case None => 0
    case Some(k) => if ShiftedBelow(c, events, k) then |Run(c, events[..k]).state.samples| else 0
  }

  /** What the packager remembers of the sample clock: the last stamp, moved by the fixed offset
      or, once a sample has come in after the shift was fixed, by the shift. */
  predicate SampleClock(c: Settings, events: seq<Event>) {
    var s, last := Run(c, events).state, LastRaw(events);
    && (last.None? ==> s.samples == [] && !s.shiftSet)
    && (if s.shiftSet then c.timeSync && Abs(s.timeShift) > 0.1 else s.timeShift == 0.0)
    && (FirstShifted(c, events).Some? ==> s.shiftSet)
    && (last.Some? ==>
          s.lastSample == if FirstShifted(c, events).Some? then s.timeShift + last.value else last.value - c.lidarToImu)
  }

  lemma LastRawStep(events: seq<Event>)
    requires events != []
    ensures var n := |events| - 1;
            LastRaw(events) == if events[n].SampleArrives? then Some(events[n].raw.stamp) else LastRaw(events[..n])
  {
  }

  lemma FirstShiftedStep(c: Settings, events: seq<Event>)
    requires events != []
    ensures var n, before := |events| - 1, FirstShifted(c, events[..|events| - 1]);
            FirstShifted(c, events) ==
            if before.Some? then before
            else if events[n].SampleArrives? && Run(c, events[..n]).state.shiftSet then Some(n) else None
  {
    hide Run;
  }

  /** What is lost at a position does not depend on what comes later. */
  lemma ShiftLossStable(c: Settings, events: seq<Event>)
    requires events != [] && FirstShifted(c, events) == FirstShifted(c, events[..|events| - 1])
    ensures ShiftLoss(c, events) == ShiftLoss(c, events[..|events| - 1])
  {
    hide Run, FirstShifted, LastRaw;
    match FirstShifted(c, events)
    case None =>
    case Some(k) => assert events[..|events| - 1][..k] == events[..k];
  }

  /** A sample does not come in before the last one. */
  lemma RawForward(events: seq<Event>)
    requires events != [] && SamplesForward(events) && events[|events| - 1].SampleArrives?
    ensures SamplesForward(events[..|events| - 1])
    ensures var last := LastRaw(events[..|events| - 1]); last.Some? ==> last.value <= events[|events| - 1].raw.stamp
  {
    hide LastRaw;
    var before := events[..|events| - 1];
    if LastRaw(before).Some? {
      var k :| 0 <= k < |before| && before[k].SampleArrives? && StampOf(before[k]) == LastRaw(before).value;
      assert before[k] == events[k];
    }
  }

  /** The timer and the scans leave the sample clock alone, except that a scan may fix the shift. */
  lemma OtherClockStep(c: Settings, y: System, e: Event)
    requires |y.state.times| >= |y.state.scans| && !e.SampleArrives?
    ensures var s, z := y.state, Next(c, y, e).state;
            && z.lastSample == s.lastSample && (s.samples == [] ==> z.samples == [])
            && Next(c, y, e).log.lostSamples == y.log.lostSamples
            && ((z.shiftSet == s.shiftSet && z.timeShift == s.timeShift)
                || (z.shiftSet && !s.shiftSet && c.timeSync && s.samples != [] && Abs(z.timeShift) > 0.1))
  {
    hide Cut, Accepts, OwnDuration;
  }

  lemma {:induction false} ShiftLossExact(c: Settings, events: seq<Event>)
    requires SamplesForward(events)
    ensures SampleClock(c, events) && Run(c, events).log.lostSamples == ShiftLoss(c, events)
  {
    if events == [] {
      RunStart(c);
    } else {
      hide Run, SampleClock, ShiftLoss, FirstShifted, LastRaw;
      ShiftLossExact(c, events[..|events| - 1]);
      if events[|events| - 1].SampleArrives? {
        SampleStep(c, events);
      } else {
        OtherStep(c, events);
      }
    }
  }

  lemma OtherStep(c: Settings, events: seq<Event>)
    requires events != [] && !events[|events| - 1].SampleArrives? && SampleClock(c, events[..|events| - 1])
    requires Run(c, events[..|events| - 1]).log.lostSamples == ShiftLoss(c, events[..|events| - 1])
    ensures SampleClock(c, events) && Run(c, events).log.lostSamples == ShiftLoss(c, events)
  {
    hide Run, ShiftLoss, FirstShifted, LastRaw, Next, Abs;
    var n := |events| - 1;
    RunStep(c, events);
    LastRawStep(events);
    FirstShiftedStep(c, events);
    ShiftLossStable(c, events);
    OtherClockStep(c, Run(c, events[..n]), events[n]);
  }

  lemma SampleStep(c: Settings, events: seq<Event>)
    requires events != [] && events[|events| - 1].SampleArrives? && SamplesForward(events)
    requires SampleClock(c, events[..|events| - 1])
    requires Run(c, events[..|events| - 1]).log.lostSamples == ShiftLoss(c, events[..|events| - 1])
    ensures SampleClock(c, events) && Run(c, events).log.lostSamples == ShiftLoss(c, events)
  {
    hide Run, FirstShifted, LastRaw, ShiftLoss;
    var n := |events| - 1;
    var y := Run(c, events[..n]);
    RunStep(c, events);
    LastRawStep(events);
    FirstShiftedStep(c, events);
    RawForward(events);
    if FirstShifted(c, events) == FirstShifted(c, events[..n]) {
      ShiftLossStable(c, events);
    } else {
      ShiftLossHere(c, events);
    }
  }

  /** The first sample under the shift decides. */
  lemma ShiftLossHere(c: Settings, events: seq<Event>)
    requires events != [] && FirstShifted(c, events) == Some(|events| - 1)
             && FirstShifted(c, events[..|events| - 1]).None?
    ensures var n := |events| - 1; var s, previous := Run(c, events[..n]).state, LastRaw(events[..n]);
            && ShiftLoss(c, events[..n]) == 0
            && ShiftLoss(c, events) ==
               if previous.Some? && s.timeShift + events[n].raw.stamp < previous.value - c.lidarToImu
               then |s.samples| else 0
  {
    hide Run, FirstShifted, LastRaw;
  }

  /** While the samples' own stamps do not decrease, the received samples are those delivered
      followed by those buffered, unless the clock shift moves the first sample after it below
      the sample before; then what was buffered is lost. */
  lemma ForwardSamplesLostIff(c: Settings, events: seq<Event>)
    requires SamplesForward(events)
    ensures var y := Run(c, events);
            && (y.log.lostSamples > 0 <==>
                FirstShifted(c, events).Some? && ShiftedBelow(c, events, FirstShifted(c, events).value))
            && (y.log.lostSamples == 0 <==> y.log.samples == Delivered(y.log.packages) + y.state.samples)
  {
    hide Run, FirstShifted, LastRaw, SampleClock, Delivered;
    ShiftLossExact(c, events);
    SamplesPassInOrder(c, events);
  }

  /** Without time synchronisation, nothing is thrown away while neither clock goes back. */
  lemma ForwardClocksLoseNothing(c: Settings, events: seq<Event>)
    requires ScansForward(events) && SamplesForward(events) && !c.timeSync
    ensures Run(c, events).log.lostScans == 0 && Run(c, events).log.lostSamples == 0
    ensures var y := Run(c, events); y.log.samples == Delivered(y.log.packages) + y.state.samples
  {
    hide Run, FirstShifted, LastRaw, Delivered, ScansForward, SamplesForward;
    ForwardScansAreKept(c, events);
    ShiftLossExact(c, events);
    SamplesPassInOrder(c, events);
  }

  /** With it they may: both clocks go forward, and still a sample is lost. */
  lemma TimeSyncLosesSamples(c: Settings)
    requires c.timeSync && c.lidarToImu == 0.0
    ensures var events := [SampleArrives(Sample(100.0, 0)), LivoxScanArrives(Scan(50.0, [])),
                           SampleArrives(Sample(101.0, 0))];
            var y := Run(c, events);
            && ScansForward(events) && SamplesForward(events) && y.log.lostSamples == 1
            && y.log.samples != Delivered(y.log.packages) + y.state.samples
  {
    hide Run;
    var a, b, d := SampleArrives(Sample(100.0, 0)), LivoxScanArrives(Scan(50.0, [])), SampleArrives(Sample(101.0, 0));
    RunStart(c);
    assert [a][..0] == [] && [a, b][..1] == [a] && [a, b, d][..2] == [a, b];
    RunStep(c, [a]);
    RunStep(c, [a, b]);
    RunStep(c, [a, b, d]);
  }

  lemma RunStep(c: Settings, events: seq<Event>)
    requires events != []
    ensures var n := |events| - 1; Run(c, events) == Next(c, Run(c, events[..n]), events[n])
  {
  }

  /** A LiDAR clock that goes back clears the scans but not their times: from then on a package
      begins at the stamp of an earlier scan. */
  lemma ClearingMispairs(c: Settings)
    requires !c.timeSync && c.lidarToImu == 0.0
    ensures var log := Run(c, [StandardScanArrives(Scan(10.0, [])), StandardScanArrives(Scan(5.0, [])),
                               SampleArrives(Sample(20.0, 0)), Timer]).log;
            |log.packages| == 1 && log.packages[0].scan.stamp == 5.0 && log.packages[0].begin == 10.0
  {
    hide Run, Invariant;
    var first, second := Scan(10.0, []), Scan(5.0, []);
    var a, b, d := StandardScanArrives(first), StandardScanArrives(second), SampleArrives(Sample(20.0, 0));
    assert Run(c, []) == System(START, NOTHING_YET) by { RunStart(c); }
    assert [a][..0] == [] && [a, b][..1] == [a] && [a, b, d][..2] == [a, b] && [a, b, d, Timer][..3] == [a, b, d];
    RunStep(c, [a]);
    RunStep(c, [a, b]);
    RunStep(c, [a, b, d]);
    RunStep(c, [a, b, d, Timer]);
  }

  lemma RunStart(c: Settings)
    ensures Run(c, []) == System(START, NOTHING_YET)
  {
  }

  /** The mean scan duration is the average of all the durations believed. */
  lemma MeanDurationIsAverage(c: Settings, events: seq<Event>)
    ensures var y := Run(c, events);
            y.log.accepted != [] ==> y.state.meanDuration == Sum(y.log.accepted) / |y.log.accepted| as real
  {
    hide Run, SamplesInOrder, SamplesConserved, ScansInOrder, PackagesPaired, PackagesSound;
    RunKeeps(c, events);
    var y := Run(c, events);
    if y.log.accepted != [] {
      QuotientOf(y.state.meanDuration, |y.log.accepted| as real, Sum(y.log.accepted));
    }
  }

  lemma QuotientOf(a: real, n: real, s: real)
    requires n > 0.0 && a * n == s
    ensures a == s / n
  {
  }
}
