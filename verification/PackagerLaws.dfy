/** What the packager does in every run, said of what came in and what went out: which stamp a
    sample is kept under, what a clock that goes back throws away, when a package goes out, and
    where its scan ends. */
module PackagerLaws {
  import opened Bytes
  import opened ImuLidarSync

  // ---------- the end of a scan ----------

  function Average(r: seq<real>): real {
    if r == [] then 0.0 else Sum(r) / |r| as real
  }

  /** The durations that are believed among these scans: the last offset of a scan of more than
      one point, in seconds, if it is not below half the average so far. */
  function Believed(scans: seq<Scan>): seq<real> {
    if scans == [] then []
    else
      var before, scan := Believed(scans[..|scans| - 1]), scans[|scans| - 1];
      if |scan.offsets| > 1 && scan.offsets[|scan.offsets| - 1] / 1000.0 >= Average(before) / 2.0
      then before + [scan.offsets[|scan.offsets| - 1] / 1000.0]
      else before
  }

  /** How long a scan is taken to be after these: its own duration if it is believed, and the
      average of those before it otherwise. */
  function Length(before: seq<Scan>, scan: Scan): real {
    var mean := Average(Believed(before));
    if |scan.offsets| > 1 && scan.offsets[|scan.offsets| - 1] / 1000.0 >= mean / 2.0
    then scan.offsets[|scan.offsets| - 1] / 1000.0
    else mean
  }

  function ScansOf(packages: seq<Package>): (r: seq<Scan>)
    ensures |r| == |packages|
  {
    seq(|packages|, k requires 0 <= k < |packages| => packages[k].scan)
  }

  /** The scans taken up so far, the one that waits for its samples included. */
  function TakenUp(y: System): seq<Scan> {
    ScansOf(y.log.packages) + if y.state.taken then [y.state.current.scan] else []
  }

  predicate EndsWell(packages: seq<Package>, k: nat)
    requires k < |packages|
  {
    packages[k].end == packages[k].begin + Length(ScansOf(packages)[..k], packages[k].scan)
  }

  predicate EndsSound(y: System) {
    && y.log.accepted == Believed(TakenUp(y))
    && (forall k :: 0 <= k < |y.log.packages| ==> EndsWell(y.log.packages, k))
    && (y.state.taken ==>
          y.state.current.end == y.state.current.begin + Length(ScansOf(y.log.packages), y.state.current.scan))
  }

  lemma BelievedNext(scans: seq<Scan>, scan: Scan)
    ensures Believed(scans + [scan]) ==
            if |scan.offsets| > 1 && scan.offsets[|scan.offsets| - 1] / 1000.0 >= Average(Believed(scans)) / 2.0
            then Believed(scans) + [scan.offsets[|scan.offsets| - 1] / 1000.0]
            else Believed(scans)
  {
    assert (scans + [scan])[..|scans|] == scans;
  }

  lemma MeanIs(y: System)
    requires MeanIsAverage(y)
    ensures y.state.meanDuration == Average(y.log.accepted)
  {
    hide Sum;
    if y.log.accepted != [] {
      QuotientOf(y.state.meanDuration, |y.log.accepted| as real, Sum(y.log.accepted));
    }
  }

  /** Taking up a scan. */
  lemma TakingUp(y: System)
    requires MeanIsAverage(y) && EndsSound(y) && !y.state.taken && y.state.scans != [] && y.state.times != []
    ensures var z := System(Taken(y.state), LogPrepared(y.log, y.state));
            && EndsSound(z) && z.log.packages == y.log.packages && z.state.taken
            && z.state.current.scan == y.state.scans[0] && z.state.current.begin == y.state.times[0]
  {
    hide Sum, EndsWell, Believed;
    MeanIs(y);
    BelievedNext(ScansOf(y.log.packages), y.state.scans[0]);
    assert ScansOf(y.log.packages) + [] == ScansOf(y.log.packages);
  }

  lemma ScansOfNext(packages: seq<Package>, p: Package)
    ensures ScansOf(packages + [p]) == ScansOf(packages) + [p.scan]
  {
  }

  lemma EndsWellNext(packages: seq<Package>, p: Package, k: nat)
    requires k < |packages| && EndsWell(packages, k)
    ensures EndsWell(packages + [p], k)
  {
    ScansOfNext(packages, p);
    assert (ScansOf(packages) + [p.scan])[..k] == ScansOf(packages)[..k];
  }

  /** Cutting a package. */
  lemma CuttingOut(y: System)
    requires EndsSound(y) && y.state.taken && y.state.scans != [] && y.state.times != []
    ensures EndsSound(System(Emitted(y.state), LogEmitted(y.log, y.state)))
  {
    hide Cut, Believed, EndsWell, Length;
    var packages, p := y.log.packages, PackageOf(y.state);
    ScansOfNext(packages, p);
    forall k | 0 <= k < |packages| ensures EndsWell(packages + [p], k) {
      EndsWellNext(packages, p, k);
    }
    LastEndsWell(packages, p);
    assert ScansOf(packages + [p]) + [] == ScansOf(packages) + [p.scan];
  }

  lemma LastEndsWell(packages: seq<Package>, p: Package)
    ensures p.end == p.begin + Length(ScansOf(packages), p.scan) ==> EndsWell(packages + [p], |packages|)
  {
    hide Length;
    ScansOfNext(packages, p);
    assert (ScansOf(packages) + [p.scan])[..|packages|] == ScansOf(packages);
  }

  lemma TimerEnds(y: System)
    requires Invariant(y) && EndsSound(y)
    ensures EndsSound(System(Synced(y.state).0, LogTimer(y.log, y.state)))
  {
    hide SamplesInOrder, SamplesConserved, PackagesPaired, PackagesSound, EndsSound, Taken, MeanIsAverage;
    if !Waits(y.state) {
      if !y.state.taken {
        TakingUp(y);
        TakenParts(y.state);
      }
      var p := System(Prepared(y.state), LogPrepared(y.log, y.state));
      if Complete(p.state) {
        CuttingOut(p);
      }
    }
  }

  lemma TakenParts(s: State)
    requires s.scans != [] && s.times != []
    ensures var t := Taken(s);
            && t.taken && t.scans == s.scans && t.times == s.times
            && t.samples == s.samples && t.lastSample == s.lastSample
            && t.current.scan == s.scans[0] && t.current.begin == s.times[0]
  {
  }

  lemma ArrivalEnds(c: Settings, y: System, e: ImuLidarSync.Event)
    requires |y.state.times| >= |y.state.scans| && EndsSound(y) && !e.Timer?
    ensures EndsSound(Next(c, y, e))
  {
    hide Believed, Length, EndsWell, Restamped;
  }

  lemma {:induction false} RunEnds(c: Settings, events: seq<ImuLidarSync.Event>)
    ensures EndsSound(Run(c, events))
  {
    if events == [] {
      RunStart(c);
    } else {
      hide EndsSound, Next, Run;
      var n := |events| - 1;
      RunEnds(c, events[..n]);
      RunKeeps(c, events[..n]);
      RunStep(c, events);
      if events[n].Timer? {
        TimerEnds(Run(c, events[..n]));
        TimerNext(c, Run(c, events[..n]));
      } else {
        ArrivalEnds(c, Run(c, events[..n]), events[n]);
      }
    }
  }

  lemma TimerNext(c: Settings, y: System)
    requires |y.state.times| >= |y.state.scans|
    ensures Next(c, y, Timer) == System(Synced(y.state).0, LogTimer(y.log, y.state))
  {
  }

  /** In every run, every package ends where its scan is taken to end, and the durations believed
      are those of the scans taken up. */
  lemma PackagesEnd(c: Settings, events: seq<ImuLidarSync.Event>, k: nat)
    requires k < |Run(c, events).log.packages|
    ensures var packages := Run(c, events).log.packages;
            packages[k].end == packages[k].begin + Length(ScansOf(packages)[..k], packages[k].scan)
    ensures Run(c, events).log.accepted == Believed(TakenUp(Run(c, events)))
  {
    hide Run, Believed, Length;
    RunEnds(c, events);
    assert EndsWell(Run(c, events).log.packages, k);
  }

  // ---------- the stamps of samples ----------

  /** A sample under the stamp it is kept by: moved back by the fixed offset, or forward by the
      shift between the clocks once that is fixed. */
  function Kept(c: Settings, shift: Option<real>, raw: Sample): Sample {
    match shift
    case Some(d) => Sample(raw.stamp + d, raw.reading)
    case None => Sample(raw.stamp - c.lidarToImu, raw.reading)
  }

  /** The shift is fixed once, if it is to be fixed at all, by the first Livox scan that comes in
      while samples are buffered and whose stamp is more than a second off the last sample's:
      it puts that sample a tenth of a second behind the scan's stamp. */
  function ShiftAfter(c: Settings, e: ImuLidarSync.Event, buffered: bool, received: seq<Sample>,
                      shift: Option<real>): Option<real> {
    if shift.Some? then shift
    else
      match e
      case LivoxScanArrives(scan) =>
        if c.timeSync && buffered && received != [] then
          var off := scan.stamp - received[|received| - 1].stamp;
          if off > 1.0 || off < -1.0 then Some(off + 0.1) else None
        else None
      case _ => None
  }

  function Shift(c: Settings, events: seq<ImuLidarSync.Event>): Option<real>
    decreases |events|, 1
  {
    if events == [] then None
    else
      var n := |events| - 1;
      ShiftAfter(c, events[n], Run(c, events[..n]).state.samples != [], Received(c, events[..n]), Shift(c, events[..n]))
  }

  /** The samples received so far. */
  function Received(c: Settings, events: seq<ImuLidarSync.Event>): seq<Sample>
    decreases |events|, 0
  {
    if events == [] then []
    else
      var n := |events| - 1;
      match events[n]
      case SampleArrives(raw) => Received(c, events[..n]) + [Kept(c, Shift(c, events[..n]), raw)]
      case _ => Received(c, events[..n])
  }

  /** What the packager knows of the samples. */
  predicate ClockSound(s: State, received: seq<Sample>, shift: Option<real>) {
    && s.shiftSet == shift.Some?
    && (match shift case None => s.timeShift == 0.0 case Some(d) => s.timeShift == d && (d > 0.1 || d < -0.1))
    && (received != [] ==> s.lastSample == received[|received| - 1].stamp)
    && (received == [] ==> s.samples == [])
    && (s.samples != [] ==> s.samples[|s.samples| - 1].stamp == s.lastSample)
  }

  predicate StampsSound(c: Settings, y: System, received: seq<Sample>, shift: Option<real>) {
    y.log.samples == received && ClockSound(y.state, received, shift) && (shift.Some? ==> c.timeSync)
  }

  lemma SampleStamped(c: Settings, y: System, raw: Sample, received: seq<Sample>, shift: Option<real>)
    requires |y.state.times| >= |y.state.scans| && StampsSound(c, y, received, shift)
    ensures StampsSound(c, Next(c, y, SampleArrives(raw)), received + [Kept(c, shift, raw)], shift)
  {
  }

  lemma ScanStamped(c: Settings, y: System, e: ImuLidarSync.Event, received: seq<Sample>, shift: Option<real>)
    requires |y.state.times| >= |y.state.scans| && StampsSound(c, y, received, shift) && IsScan(e)
    ensures StampsSound(c, Next(c, y, e), received, ShiftAfter(c, e, y.state.samples != [], received, shift))
  {
  }

  lemma TimerStamped(c: Settings, y: System, received: seq<Sample>, shift: Option<real>)
    requires Invariant(y) && StampsSound(c, y, received, shift)
    ensures StampsSound(c, Next(c, y, Timer), received, shift)
  {
    hide Accepts, OwnDuration, Cut, Invariant;
    TimerNext(c, y);
  }

  lemma ReceivedStep(c: Settings, events: seq<ImuLidarSync.Event>)
    requires events != []
    ensures var n := |events| - 1;
            var received, shift := Received(c, events[..n]), Shift(c, events[..n]);
            && Received(c, events) ==
               (if events[n].SampleArrives? then received + [Kept(c, shift, events[n].raw)] else received)
            && Shift(c, events) ==
               (if IsScan(events[n])
                then ShiftAfter(c, events[n], Run(c, events[..n]).state.samples != [], received, shift)
                else shift)
  {
    hide Run;
  }

  lemma {:induction false} RunStamps(c: Settings, events: seq<ImuLidarSync.Event>)
    ensures StampsSound(c, Run(c, events), Received(c, events), Shift(c, events))
  {
    if events == [] {
      RunStart(c);
    } else {
      hide StampsSound, Next, Run, Received, Shift, Invariant;
      var n := |events| - 1;
      var y, received, shift := Run(c, events[..n]), Received(c, events[..n]), Shift(c, events[..n]);
      RunStamps(c, events[..n]);
      RunKeeps(c, events[..n]);
      RunStep(c, events);
      ReceivedStep(c, events);
      match events[n]
      case SampleArrives(raw) => SampleStamped(c, y, raw, received, shift);
      case Timer => TimerStamped(c, y, received, shift);
      case _ => ScanStamped(c, y, events[n], received, shift);
    }
  }

  /** In every run the samples received are logged under the stamps they are kept by. */
  lemma SamplesStamped(c: Settings, events: seq<ImuLidarSync.Event>)
    ensures Run(c, events).log.samples == Received(c, events)
  {
    hide Run, Received, Shift, ClockSound;
    RunStamps(c, events);
  }

  // ---------- what a clock that goes back throws away ----------

  /** A sample is put behind those buffered, unless its stamp is below the last one received: then
      those buffered are thrown away. */
  lemma SampleKept(c: Settings, events: seq<ImuLidarSync.Event>, raw: Sample)
    ensures var y, z := Run(c, events), Run(c, events + [SampleArrives(raw)]);
            var before, after := Received(c, events), Received(c, events + [SampleArrives(raw)]);
            && |after| == |before| + 1
            && var it := after[|before|];
               var back := before != [] && it.stamp < before[|before| - 1].stamp;
               && z.state.samples == (if back then [] else y.state.samples) + [it]
               && z.log.lostSamples == y.log.lostSamples + (if back then |y.state.samples| else 0)
               && z.state.scans == y.state.scans && z.state.times == y.state.times && z.log.packages == y.log.packages
  {
    hide Run, Received, Shift;
    var longer := events + [SampleArrives(raw)];
    assert longer[..|events|] == events;
    RunStamps(c, events);
    RunStep(c, longer);
    ReceivedStep(c, longer);
    SampleMoves(c, Run(c, events), raw, Received(c, events), Shift(c, events));
  }

  lemma SampleMoves(c: Settings, y: System, raw: Sample, received: seq<Sample>, shift: Option<real>)
    requires |y.state.times| >= |y.state.scans| && StampsSound(c, y, received, shift)
    ensures var z := Next(c, y, SampleArrives(raw));
            var it := Kept(c, shift, raw);
            var back := received != [] && it.stamp < received[|received| - 1].stamp;
            && z.state.samples == (if back then [] else y.state.samples) + [it]
            && z.log.lostSamples == y.log.lostSamples + (if back then |y.state.samples| else 0)
            && z.state.scans == y.state.scans && z.state.times == y.state.times && z.log.packages == y.log.packages
  {
  }

  /** A scan is put behind those buffered, unless its stamp is below that of the last scan: then
      those buffered are thrown away. Its time is put behind the others in either case. */
  lemma ScanKept(c: Settings, events: seq<ImuLidarSync.Event>, e: ImuLidarSync.Event)
    requires IsScan(e)
    ensures var y, z := Run(c, events), Run(c, events + [e]);
            var back := LastScan(events).Some? && e.scan.stamp < LastScan(events).value;
            && z.state.scans == (if back then [] else y.state.scans) + [e.scan]
            && z.state.times == y.state.times + [e.scan.stamp]
            && z.log.lostScans == y.log.lostScans + (if back then |y.state.scans| else 0)
            && z.log.scans == y.log.scans + [e.scan]
            && z.state.samples == y.state.samples && z.log.packages == y.log.packages
  {
    hide Run, LastScan;
    var longer := events + [e];
    assert longer[..|events|] == events;
    ScanClock(c, events);
    RunStep(c, longer);
    ScanMoves(c, Run(c, events), e, LastScan(events));
  }

  lemma ScanMoves(c: Settings, y: System, e: ImuLidarSync.Event, last: Option<real>)
    requires |y.state.times| >= |y.state.scans| && IsScan(e)
    requires (if y.state.firstScan then None else Some(y.state.lastScan)) == last
    ensures var z := Next(c, y, e);
            var back := last.Some? && e.scan.stamp < last.value;
            && z.state.scans == (if back then [] else y.state.scans) + [e.scan]
            && z.state.times == y.state.times + [e.scan.stamp]
            && z.log.lostScans == y.log.lostScans + (if back then |y.state.scans| else 0)
            && z.log.scans == y.log.scans + [e.scan]
            && z.state.samples == y.state.samples && z.log.packages == y.log.packages
  {
  }

  // ---------- when a package goes out ----------

  /** The timer step from y to z. With no scan or no sample buffered nothing happens. Otherwise the
      scan that was taken up before, or the first one buffered, ends as PackagesEnd says, counted
      from the stamp of the scan received at the package's own number; and a package goes out
      exactly when the last sample received is not before that end. It splits the samples there. */
  ghost predicate Cuts(y: System, z: System, received: seq<Sample>) {
    if y.state.scans == [] || y.state.samples == [] then z == y
    else
      var k := |y.log.packages|;
      var scan := if y.state.taken then y.state.current.scan else y.state.scans[0];
      && k < |y.log.scans| && received != []
      && var begin := y.log.scans[k].stamp;
         var end := begin + Length(ScansOf(y.log.packages), scan);
         if received[|received| - 1].stamp >= end then
           && |z.log.packages| == k + 1 && z.log.packages[..k] == y.log.packages
           && var p := z.log.packages[k];
              && p.scan == scan && p.begin == begin && p.end == end
              && SplitAt(y.state.samples, p.samples, z.state.samples, end)
              && (p.samples != [] <==> y.state.samples[0].stamp < end)
              && |y.state.times| > 0 && !z.state.taken
              && z.state.scans == y.state.scans[1..] && z.state.times == y.state.times[1..]
         else
           && z.log.packages == y.log.packages && z.state.samples == y.state.samples
           && z.state.scans == y.state.scans && z.state.times == y.state.times
           && z.state.taken && z.state.current.scan == scan
  }

  lemma TimerCuts(c: Settings, events: seq<ImuLidarSync.Event>)
    ensures Cuts(Run(c, events), Run(c, events + [Timer]), Received(c, events))
  {
    hide *;
    var longer := events + [Timer];
    assert longer[..|events|] == events;
    RunKeeps(c, events);
    RunEnds(c, events);
    RunStamps(c, events);
    RunStep(c, longer);
    var y := Run(c, events);
    EnoughTimes(y);
    TimerNext(c, y);
    ClockOf(c, y, Received(c, events), Shift(c, events));
    TimerMoves(y, Received(c, events), Shift(c, events));
  }

  lemma EnoughTimes(y: System)
    requires Invariant(y)
    ensures |y.state.times| >= |y.state.scans|
  {
  }

  lemma ClockOf(c: Settings, y: System, received: seq<Sample>, shift: Option<real>)
    requires StampsSound(c, y, received, shift)
    ensures ClockSound(y.state, received, shift)
  {
  }

  lemma FirstTime(y: System)
    requires ScansInOrder(y) && y.state.scans != []
    ensures var k := |y.log.packages|;
            && k < |y.log.scans| && y.state.times != [] && y.state.times[0] == y.log.scans[k].stamp
            && (y.state.taken ==> y.state.current.begin == y.log.scans[k].stamp)
  {
    var k := |y.log.packages|;
    assert y.state.times == Stamps(y.log.scans)[k..];
  }

  lemma TimerMoves(y: System, received: seq<Sample>, shift: Option<real>)
    requires Invariant(y) && EndsSound(y) && ClockSound(y.state, received, shift)
    ensures Cuts(y, System(Synced(y.state).0, LogTimer(y.log, y.state)), received)
  {
    hide Taken, Believed, Length, EndsWell, Cut, SplitAt, Stamps, IsFor, Sorted;
    hide SamplesConserved, PackagesPaired, PackagesSound, MeanIsAverage;
    if !Waits(y.state) {
      FirstTime(y);
      if !y.state.taken {
        TakingUp(y);
        TakenParts(y.state);
      }
      var t := Prepared(y.state);
      if Complete(t) {
        CutSplits(t.samples, t.current.end);
      }
    }
  }
}
