/** The asynchronous configuration of a LiDAR from the user's configuration file: requests,
    acknowledgements, timeouts and retries in any order. */
module LivoxHandshake {
  import opened Bytes

  datatype Setting = DataType | ScanPattern | BlindSpot | DualEmit

  /** Values as the device keeps them: -1 means that the setting is not requested. */
  datatype Config = Config(dataType: int, scanPattern: int, blindSpot: int, dualEmit: int)

  datatype ConnectState = Off | On | Configuring | Sampling

  datatype Command = Set(setting: Setting) | SetAttitude | SetWorkMode | EnableImu

  datatype Request = Request(command: Command, value: int)

  datatype Status = Success | Timeout | Failure

  const NOT_SET := -1

  /** A signed byte. */
  function Int8(n: int): int {
    (n + 128) % 256 - 128
  }

  /** What the configuration parser stores for a field of the file. */
  function Parsed(field: Option<int>): int {
    match field
    case None => NOT_SET
    case Some(n) => Int8(n)
  }

  function Value(c: Config, s: Setting): int {
    match s
    case DataType => c.dataType
    case ScanPattern => c.scanPattern
    case BlindSpot => c.blindSpot
    case DualEmit => c.dualEmit
  }

  predicate Requested(c: Config, s: Setting) {
    Value(c, s) != NOT_SET
  }

  /** A field of the file is applied unless it is absent or its low byte reads as -1. */
  lemma RequestedIff(c: Config, s: Setting, field: Option<int>)
    requires Value(c, s) == Parsed(field)
    ensures Requested(c, s) <==> field.Some? && field.value % 256 != 255
  {
  }

  /** What is stored is the low byte of the field, read as a signed one. */
  lemma ParsedIs(field: Option<int>)
    ensures field.None? ==> Parsed(field) == -1
    ensures field.Some? ==> -128 <= Parsed(field) <= 127 && (field.value - Parsed(field)) % 256 == 0
  {
  }

  /** Dual emission is sent as a flag, the others as they are. */
  function SentValue(c: Config, s: Setting): int {
    if s == DualEmit then (if Value(c, s) == 0 then 0 else 1) else Value(c, s)
  }

  function RequestFor(c: Config, s: Setting): Request {
    Request(Set(s), SentValue(c, s))
  }

  // ---------- bits ----------

  function Bit(s: Setting): bv32 {
    match s
    case DataType => 1
    case ScanPattern => 2
    case BlindSpot => 4
    case DualEmit => 8
  }

  function Common(a: bv32, b: bv32): bv32 {
    a & b
  }

  predicate Has(bits: bv32, s: Setting) {
    Common(bits, Bit(s)) != 0
  }

  predicate OnlyKnown(bits: bv32) {
    Common(bits, 0xFFFF_FFF0) == 0
  }

  function Raise(bits: bv32, s: Setting): bv32 {
    bits | Bit(s)
  }

  function Clear(bits: bv32, s: Setting): bv32 {
    bits & !Bit(s)
  }

  lemma OrCommon(bits: bv32, a: bv32, b: bv32)
    ensures a & b == 0 ==> (bits | a) & b == bits & b
    ensures a & b == b ==> (bits | a) & b == b
  {
  }

  lemma AndNotCommon(bits: bv32, a: bv32, b: bv32)
    ensures a & b == 0 ==> (bits & !a) & b == bits & b
    ensures a & b == b ==> (bits & !a) & b == 0
  {
  }

  lemma BitsDisjoint(s: Setting, t: Setting)
    ensures Bit(s) != 0 && Bit(s) & 0xFFFF_FFF0 == 0
    ensures Bit(s) & Bit(t) == if s == t then Bit(t) else 0
  {
  }

  lemma RaiseCommon(bits: bv32, s: Setting, b: bv32)
    ensures Bit(s) & b == 0 ==> Common(Raise(bits, s), b) == Common(bits, b)
    ensures Bit(s) & b == b ==> Common(Raise(bits, s), b) == b
  {
    hide Bit;
    OrCommon(bits, Bit(s), b);
  }

  lemma ClearCommon(bits: bv32, s: Setting, b: bv32)
    ensures Bit(s) & b == 0 ==> Common(Clear(bits, s), b) == Common(bits, b)
    ensures Bit(s) & b == b ==> Common(Clear(bits, s), b) == 0
  {
    hide Bit;
    AndNotCommon(bits, Bit(s), b);
  }

  lemma RaiseHas(bits: bv32, s: Setting, t: Setting)
    ensures Has(Raise(bits, s), t) <==> s == t || Has(bits, t)
    ensures OnlyKnown(Raise(bits, s)) <==> OnlyKnown(bits)
  {
    hide Bit, Common, Raise;
    BitsDisjoint(s, t);
    RaiseCommon(bits, s, Bit(t));
    RaiseCommon(bits, s, 0xFFFF_FFF0);
  }

  lemma ClearHas(bits: bv32, s: Setting, t: Setting)
    ensures Has(Clear(bits, s), t) <==> s != t && Has(bits, t)
    ensures OnlyKnown(Clear(bits, s)) <==> OnlyKnown(bits)
  {
    hide Bit, Common, Clear;
    BitsDisjoint(s, t);
    ClearCommon(bits, s, Bit(t));
    ClearCommon(bits, s, 0xFFFF_FFF0);
  }

  lemma NoneSet(bits: bv32)
    requires OnlyKnown(bits)
    ensures bits == 0 <==>
            !Has(bits, DataType) && !Has(bits, ScanPattern) && !Has(bits, BlindSpot) && !Has(bits, DualEmit)
  {
  }

  // ---------- one device ----------

  datatype State = State(setBits: bv32, connect: ConnectState, inFlight: multiset<Request>)

  const START := State(0, Off, multiset{})

  /** Raises the bit of a requested setting and sends the request. */
  function Applied(c: Config, st: State, s: Setting): State {
    if Requested(c, s) then
      st.(setBits := Raise(st.setBits, s), inFlight := st.inFlight + multiset{RequestFor(c, s)})
    else st
  }

  const ATTITUDE := Request(SetAttitude, 0)
  const WORK_MODE := Request(SetWorkMode, 1)
  const IMU := Request(EnableImu, 1)

  /** A configured device announces itself. */
  function Announced(c: Config, st: State): State {
    var all := Applied(c, Applied(c, Applied(c, Applied(c, st, DataType), ScanPattern), BlindSpot), DualEmit);
    all.(inFlight := all.inFlight + multiset{ATTITUDE, WORK_MODE, IMU})
  }

  /** The answer to a request: success of a setting clears its bit, and the last one starts
      sampling; a timeout sends the request again. The work mode is sent again after any
      failure, and the IMU only when the answer carries a response. */
  function Answered(c: Config, st: State, r: Request, status: Status, hasResponse: bool): State
    requires r in st.inFlight
  {
    var rest := st.(inFlight := st.inFlight - multiset{r});
    match r.command
    case Set(s) =>
      (match status
       case Success =>
         var bits := Clear(st.setBits, s);
         rest.(setBits := bits, connect := if bits == 0 then Sampling else st.connect)
       case Timeout => rest.(inFlight := rest.inFlight + multiset{RequestFor(c, s)})
       case Failure => rest)
    case SetAttitude => if status == Timeout then rest.(inFlight := rest.inFlight + multiset{ATTITUDE}) else rest
    case SetWorkMode => if status != Success then rest.(inFlight := rest.inFlight + multiset{WORK_MODE}) else rest
    case EnableImu =>
      if hasResponse && status == Timeout then rest.(inFlight := rest.inFlight + multiset{IMU}) else rest
  }

  // ---------- the code ----------

  class Device {
    const config: Config
    var setBits: bv32
    var connect: ConnectState
    /** Requests handed to the SDK and not yet answered. */
    var inFlight: multiset<Request>

    function View(): State
      reads this
    {
      State(setBits, connect, inFlight)
    }

    constructor (config: Config)
      ensures this.config == config && View() == START
    {
      this.config := config;
      setBits, connect, inFlight := 0, Off, multiset{};
    }

    method Send(r: Request)
      modifies this`inFlight
      ensures inFlight == old(inFlight) + multiset{r}
    {
      inFlight := inFlight + multiset{r};
    }

    /** Raises the bit of a setting and sends it, if the configuration asks for it. */
    method Apply(s: Setting)
      modifies this
      ensures View() == Applied(config, old(View()), s)
    {
      if Value(config, s) != NOT_SET {
        setBits := setBits | Bit(s);
        Send(RequestFor(config, s));
      }
    }

    method InfoChange()
      modifies this
      ensures View() == Announced(config, old(View()))
    {
      hide *;
      AnnouncedUnfold(View());
      Apply(DataType);
      Apply(ScanPattern);
      Apply(BlindSpot);
      Apply(DualEmit);
      ghost var was := inFlight;
      ViewParts();
      Send(ATTITUDE);
      Send(WORK_MODE);
      Send(IMU);
      assert inFlight == was + multiset{ATTITUDE, WORK_MODE, IMU};
      ViewParts();
    }

    lemma AnnouncedUnfold(st: State)
      ensures var early := Applied(config, Applied(config, st, DataType), ScanPattern);
              var all := Applied(config, Applied(config, early, BlindSpot), DualEmit);
              Announced(config, st) == all.(inFlight := all.inFlight + multiset{ATTITUDE, WORK_MODE, IMU})
    {
    }

    lemma ViewParts()
      ensures View() == State(setBits, connect, inFlight)
    {
    }

    method ClearBit(s: Setting)
      modifies this`setBits
      ensures setBits == Clear(old(setBits), s)
    {
      hide Bit;
      setBits := setBits & !Bit(s);
    }

    /** The four acknowledgement handlers of the settings. They report a failure by reading
        the response, and read one that is not there when the answer carries none. */
    method SettingCallback(s: Setting, r: Request, status: Status, hasResponse: bool) returns (nullRead: bool)
      requires r in inFlight && r.command == Set(s)
      modifies this
      ensures View() == Answered(config, old(View()), r, status, hasResponse)
      ensures nullRead <==> status == Failure && !hasResponse
    {
      hide RequestFor, Clear;
      inFlight, nullRead := inFlight - multiset{r}, false;
      if status == Success {
        ClearBit(s);
        if setBits == 0 {
          connect := Sampling;
        }
      } else if status == Timeout {
        Send(RequestFor(config, s));
      } else {
        nullRead := !hasResponse;
      }
    }

    method AttitudeCallback(r: Request, status: Status, hasResponse: bool)
      requires r in inFlight && r.command == SetAttitude
      modifies this`inFlight
      ensures View() == Answered(config, old(View()), r, status, hasResponse)
    {
      inFlight := inFlight - multiset{r};
      if status == Timeout {
        Send(ATTITUDE);
      }
    }

    method WorkModeCallback(r: Request, status: Status, hasResponse: bool)
      requires r in inFlight && r.command == SetWorkMode
      modifies this`inFlight
      ensures View() == Answered(config, old(View()), r, status, hasResponse)
    {
      inFlight := inFlight - multiset{r};
      if status != Success {
        Send(WORK_MODE);
      }
    }

    method ImuCallback(r: Request, status: Status, hasResponse: bool)
      requires r in inFlight && r.command == EnableImu
      modifies this`inFlight
      ensures View() == Answered(config, old(View()), r, status, hasResponse)
    {
      inFlight := inFlight - multiset{r};
      if !hasResponse {
        return;
      }
      if status == Timeout {
        Send(IMU);
      }
    }
  }

  // ---------- all interleavings ----------

  datatype Event =
    | Announce
    | Answer(request: Request, status: Status, hasResponse: bool)

  /** What has happened: whether the device announced itself, which commands have ever
      succeeded, and which have failed since the last announcement. */
  datatype Log = Log(announced: bool, succeeded: set<Command>, failed: set<Command>)

  datatype System = System(state: State, log: Log)

  /** Only requests in flight are answered. */
  predicate Enabled(y: System, e: Event) {
    e.Answer? ==> e.request in y.state.inFlight
  }

  function Next(c: Config, y: System, e: Event): System
    requires Enabled(y, e)
  {
    match e
    case Announce => System(Announced(c, y.state), y.log.(announced := true, failed := {}))
    case Answer(r, status, hasResponse) =>
      System(Answered(c, y.state, r, status, hasResponse),
             match status
             case Success => y.log.(succeeded := y.log.succeeded + {r.command})
             case Timeout => y.log
             case Failure => y.log.(failed := y.log.failed + {r.command}))
  }

  /** The system after these events, or None if one of them could not happen. */
  function Run(c: Config, events: seq<Event>): Option<System> {
    if events == [] then Some(System(START, Log(false, {}, {})))
    else
      match Run(c, events[..|events| - 1])
      case None => None
      case Some(y) => if Enabled(y, events[|events| - 1]) then Some(Next(c, y, events[|events| - 1])) else None
  }

  predicate Waiting(st: State, s: Setting) {
    exists r :: r in st.inFlight && r.command == Set(s)
  }

  /** A raised bit has its request in flight, unless one failed since the last announcement. */
  predicate BitSound(c: Config, y: System, s: Setting) {
    Has(y.state.setBits, s) ==>
      y.log.announced && Requested(c, s) && (Waiting(y.state, s) || Set(s) in y.log.failed)
  }

  /** Since the device announced itself, a requested setting is pending or has succeeded. */
  predicate SettingSound(c: Config, y: System, s: Setting) {
    y.log.announced && Requested(c, s) ==> Has(y.state.setBits, s) || Set(s) in y.log.succeeded
  }

  /** A request carries the configured value. */
  predicate RequestSound(c: Config, y: System, r: Request) {
    match r.command
    case Set(s) => y.log.announced && Requested(c, s) && r == RequestFor(c, s)
    case SetAttitude => r == ATTITUDE
    case SetWorkMode => r == WORK_MODE
    case EnableImu => r == IMU
  }

  predicate SomeRequested(c: Config) {
    exists s :: Requested(c, s)
  }

  predicate AllSucceeded(c: Config, y: System) {
    forall s :: Requested(c, s) ==> Set(s) in y.log.succeeded
  }

  predicate ConnectSound(c: Config, y: System) {
    && (y.state.connect == Sampling ==> y.log.announced && SomeRequested(c) && AllSucceeded(c, y))
    && (y.log.announced && SomeRequested(c) && y.state.setBits == 0 ==> y.state.connect == Sampling)
  }

  predicate WorkModeSound(y: System) {
    y.log.announced ==> WORK_MODE in y.state.inFlight || SetWorkMode in y.log.succeeded
  }

  predicate PendingSound(c: Config, y: System) {
    && OnlyKnown(y.state.setBits)
    && (forall s :: BitSound(c, y, s))
    && (forall r :: r in y.state.inFlight ==> RequestSound(c, y, r))
  }

  predicate Invariant(c: Config, y: System) {
    PendingSound(c, y) && (forall s :: SettingSound(c, y, s)) && ConnectSound(c, y) && WorkModeSound(y)
  }

  /** Every event of every interleaving keeps the invariant. */
  lemma {:induction false} RunKeeps(c: Config, events: seq<Event>)
    ensures Run(c, events).Some? ==> Invariant(c, Run(c, events).value)
  {
    hide Invariant;
    if events == [] {
      StartKeeps(c);
    } else {
      RunKeeps(c, events[..|events| - 1]);
      var before := Run(c, events[..|events| - 1]);
      if before.Some? && Enabled(before.value, events[|events| - 1]) {
        NextKeeps(c, before.value, events[|events| - 1]);
      }
    }
  }

  lemma StartKeeps(c: Config)
    ensures Invariant(c, System(START, Log(false, {}, {})))
  {
    hide Requested;
  }

  lemma NextKeeps(c: Config, y: System, e: Event)
    requires Invariant(c, y) && Enabled(y, e)
    ensures Invariant(c, Next(c, y, e))
  {
    hide Invariant, Announced, Answered;
    match e
    case Announce => AnnounceKeeps(c, y);
    case Answer(r, status, hasResponse) =>
      if r.command.Set? && status == Success {
        SuccessKeeps(c, y, r, hasResponse);
      } else {
        OtherAnswerKeeps(c, y, r, status, hasResponse);
      }
  }

  // ---------- the announcement ----------

  lemma AppliedKeeps(c: Config, y: System, s: Setting)
    requires PendingSound(c, y) && y.log.announced
    ensures var z := y.(state := Applied(c, y.state, s));
            && PendingSound(c, z)
            && (forall t :: Has(y.state.setBits, t) ==> Has(z.state.setBits, t))
            && (forall t :: Waiting(y.state, t) ==> Waiting(z.state, t))
            && (Requested(c, s) ==> Has(z.state.setBits, s) && Waiting(z.state, s))
            && z.state.connect == y.state.connect && z.log == y.log
  {
    hide OnlyKnown, Has, Raise, Requested, SentValue, Waiting;
    var z := y.(state := Applied(c, y.state, s));
    if Requested(c, s) {
      forall t: Setting
        ensures Has(z.state.setBits, t) <==> t == s || Has(y.state.setBits, t)
        ensures BitSound(c, z, t)
      {
        RaiseHas(y.state.setBits, s, t);
        BitStaysSound(c, y, z, s, t);
      }
      RaiseHas(y.state.setBits, s, s);
      IsWaiting(z.state, RequestFor(c, s), s);
    }
    forall t: Setting ensures Waiting(y.state, t) ==> Waiting(z.state, t) { WaitingKept(y.state, z.state, t); }
  }

  lemma IsWaiting(st: State, r: Request, s: Setting)
    requires r in st.inFlight && r.command == Set(s)
    ensures Waiting(st, s)
  {
  }

  lemma BitStaysSound(c: Config, y: System, z: System, s: Setting, t: Setting)
    requires Requested(c, s) && y.log.announced && z == y.(state := Applied(c, y.state, s))
    requires BitSound(c, y, t) && (Has(z.state.setBits, t) <==> t == s || Has(y.state.setBits, t))
    ensures BitSound(c, z, t)
  {
    hide Has, Raise, Requested, SentValue;
    if t == s {
      assert RequestFor(c, s) in z.state.inFlight && RequestFor(c, s).command == Set(s);
    } else if Has(y.state.setBits, t) && Waiting(y.state, t) {
      var r :| r in y.state.inFlight && r.command == Set(t);
      assert r in z.state.inFlight;
    }
  }

  lemma AnnounceKeeps(c: Config, y: System)
    requires Invariant(c, y)
    ensures Invariant(c, Next(c, y, Announce))
  {
    hide Has, OnlyKnown, Applied, Requested, PendingSound, Waiting;
    var y0 := y.(log := y.log.(announced := true));
    AnnouncedPending(c, y, y0);
    var y1 := y0.(state := Applied(c, y0.state, DataType));
    var y2 := y1.(state := Applied(c, y1.state, ScanPattern));
    var y3 := y2.(state := Applied(c, y2.state, BlindSpot));
    var y4 := y3.(state := Applied(c, y3.state, DualEmit));
    AppliedKeeps(c, y0, DataType);
    AppliedKeeps(c, y1, ScanPattern);
    AppliedKeeps(c, y2, BlindSpot);
    AppliedKeeps(c, y3, DualEmit);
    var z := Next(c, y, Announce);
    var z0 := z.(log := y0.log);
    CommonRequestsKeep(c, y4, z0);
    forall s: Setting | Requested(c, s) ensures Has(z.state.setBits, s) && Waiting(z.state, s) {
      match s case DataType => case ScanPattern => case BlindSpot => case DualEmit =>
    }
    FailuresForgotten(c, z0, z);
    if SomeRequested(c) {
      var s :| Requested(c, s);
      NonZero(z.state.setBits, s);
    }
  }

  lemma NonZero(bits: bv32, s: Setting)
    requires Has(bits, s)
    ensures bits != 0
  {
  }

  lemma AnnouncedPending(c: Config, y: System, y0: System)
    requires PendingSound(c, y) && y0 == y.(log := y.log.(announced := true))
    ensures PendingSound(c, y0)
  {
    hide Has, OnlyKnown, Requested, SentValue;
    forall s ensures BitSound(c, y0, s) { assert BitSound(c, y, s); }
  }

  lemma CommonRequestsKeep(c: Config, y: System, z: System)
    requires PendingSound(c, y)
    requires z == y.(state := y.state.(inFlight := y.state.inFlight + multiset{ATTITUDE, WORK_MODE, IMU}))
    ensures PendingSound(c, z) && WORK_MODE in z.state.inFlight
    ensures forall s :: Waiting(y.state, s) ==> Waiting(z.state, s)
  {
    hide Has, OnlyKnown, Requested, SentValue;
    forall s ensures BitSound(c, z, s) && (Waiting(y.state, s) ==> Waiting(z.state, s)) {
      assert BitSound(c, y, s);
      WaitingKept(y.state, z.state, s);
    }
  }

  /** An announcement puts every raised bit in flight, so that earlier failures no longer matter. */
  lemma FailuresForgotten(c: Config, y: System, z: System)
    requires PendingSound(c, y) && z == y.(log := y.log.(failed := {}))
    requires forall s :: Requested(c, s) ==> Waiting(y.state, s)
    ensures PendingSound(c, z)
  {
    hide Has, OnlyKnown, Requested, SentValue, Waiting;
    forall s: Setting ensures BitSound(c, z, s) { assert BitSound(c, y, s); }
    forall r | r in z.state.inFlight ensures RequestSound(c, z, r) { assert RequestSound(c, y, r); }
  }

  lemma WaitingKept(y: State, z: State, s: Setting)
    requires forall r :: r in y.inFlight && r.command == Set(s) ==> r in z.inFlight
    ensures Waiting(y, s) ==> Waiting(z, s)
  {
  }

  // ---------- answers ----------

  lemma SuccessKeeps(c: Config, y: System, r: Request, hasResponse: bool)
    requires Invariant(c, y) && r in y.state.inFlight && r.command.Set?
    ensures Invariant(c, Next(c, y, Answer(r, Success, hasResponse)))
  {
    hide Has, OnlyKnown, Requested, SentValue, Clear, SomeRequested;
    var s, z := r.command.setting, Next(c, y, Answer(r, Success, hasResponse));
    assert RequestSound(c, y, r);
    ClearHas(y.state.setBits, s, s);
    forall t: Setting ensures BitSound(c, z, t) && SettingSound(c, z, t) {
      assert BitSound(c, y, t) && SettingSound(c, y, t);
      ClearHas(y.state.setBits, s, t);
      if t != s { WaitingKept(y.state, z.state, t); }
    }
    if z.state.setBits == 0 {
      NoneSet(z.state.setBits);
      forall t | Requested(c, t) ensures Set(t) in z.log.succeeded {
        assert SettingSound(c, z, t);
        match t case DataType => case ScanPattern => case BlindSpot => case DualEmit =>
      }
      IsSomeRequested(c, s);
    }
  }

  lemma IsSomeRequested(c: Config, s: Setting)
    requires Requested(c, s)
    ensures SomeRequested(c)
  {
  }

  /** All other answers leave the bits alone. */
  lemma OtherAnswerKeeps(c: Config, y: System, r: Request, status: Status, hasResponse: bool)
    requires Invariant(c, y) && r in y.state.inFlight && !(r.command.Set? && status == Success)
    ensures Invariant(c, Next(c, y, Answer(r, status, hasResponse)))
  {
    hide Has, OnlyKnown, Requested, SentValue, SomeRequested, Answered,
         BitSound, RequestSound, WorkModeSound, RequestFor;
    var z := Next(c, y, Answer(r, status, hasResponse));
    OtherAnswerShape(c, y.state, r, status, hasResponse);
    assert RequestSound(c, y, r);
    if r.command.Set? {
      SettingRetried(c, y, z, r);
    } else {
      CommonRetried(c, y, z, r);
    }
    forall t: Setting ensures SettingSound(c, z, t) {
      assert SettingSound(c, y, t);
    }
    AnswerKeepsWorkMode(c, y, r, status, hasResponse);
  }

  lemma Remaining(all: multiset<Request>, r: Request, again: multiset<Request>)
    requires r in all
    ensures forall q :: q in all && q != r ==> q in all - multiset{r}
    ensures forall q :: q in all - multiset{r} ==> q in all
    ensures forall q :: q in all - multiset{r} + again <==> q in all - multiset{r} || q in again
  {
  }

  lemma OtherAnswerShape(c: Config, st: State, r: Request, status: Status, hasResponse: bool)
    requires r in st.inFlight && !(r.command.Set? && status == Success)
    ensures var z := Answered(c, st, r, status, hasResponse);
            && z.setBits == st.setBits && z.connect == st.connect
            && (forall q :: q in st.inFlight && q != r ==> q in z.inFlight)
            && (forall q :: q in z.inFlight ==> q in st.inFlight || IsRetry(c, r, q))
            && (r.command.Set? && status == Timeout ==> RequestFor(c, r.command.setting) in z.inFlight)
  {
    hide SentValue, RequestFor, Clear;
    var again := match r.command
      case Set(s) => RequestFor(c, s)
      case SetAttitude => ATTITUDE
      case SetWorkMode => WORK_MODE
      case EnableImu => IMU;
    Remaining(st.inFlight, r, multiset{again});
  }

  predicate IsRetry(c: Config, r: Request, q: Request) {
    match r.command
    case Set(s) => q == RequestFor(c, s)
    case SetAttitude => q == ATTITUDE
    case SetWorkMode => q == WORK_MODE
    case EnableImu => q == IMU
  }

  /** A retry is as sound as the request it repeats. */
  lemma RetrySound(c: Config, y: System, r: Request, q: Request)
    requires RequestSound(c, y, r) && IsRetry(c, r, q)
    ensures RequestSound(c, y, q)
  {
    hide Requested, SentValue;
  }

  lemma AnswerKeepsWorkMode(c: Config, y: System, r: Request, status: Status, hasResponse: bool)
    requires WorkModeSound(y) && r in y.state.inFlight
             && RequestSound(c, y, r) && !(r.command.Set? && status == Success)
    ensures WorkModeSound(Next(c, y, Answer(r, status, hasResponse)))
  {
    hide Requested, SentValue;
  }

  lemma SettingRetried(c: Config, y: System, z: System, r: Request)
    requires PendingSound(c, y) && r in y.state.inFlight && r.command.Set? && RequestSound(c, y, r)
    requires z.state.setBits == y.state.setBits && z.log.announced == y.log.announced && y.log.failed <= z.log.failed
    requires forall q :: q in y.state.inFlight && q != r ==> q in z.state.inFlight
    requires forall q :: q in z.state.inFlight ==> q in y.state.inFlight || IsRetry(c, r, q)
    requires RequestFor(c, r.command.setting) in z.state.inFlight || r.command in z.log.failed
    ensures PendingSound(c, z)
  {
    hide Has, OnlyKnown, Requested, SentValue;
    forall q | q in z.state.inFlight ensures RequestSound(c, z, q) {
      if q !in y.state.inFlight { RetrySound(c, y, r, q); } else { assert RequestSound(c, y, q); }
    }
    forall t: Setting ensures BitSound(c, z, t) {
      assert BitSound(c, y, t);
      if r.command == Set(t) {
        assert RequestFor(c, t).command == Set(t);
      } else {
        WaitingKept(y.state, z.state, t);
      }
    }
  }

  lemma CommonRetried(c: Config, y: System, z: System, r: Request)
    requires PendingSound(c, y) && r in y.state.inFlight && !r.command.Set? && RequestSound(c, y, r)
    requires z.state.setBits == y.state.setBits && z.log.announced == y.log.announced && y.log.failed <= z.log.failed
    requires forall q :: q in y.state.inFlight && q != r ==> q in z.state.inFlight
    requires forall q :: q in z.state.inFlight ==> q in y.state.inFlight || IsRetry(c, r, q)
    ensures PendingSound(c, z)
  {
    hide Has, OnlyKnown, Requested, SentValue;
    forall q | q in z.state.inFlight ensures RequestSound(c, z, q) {
      if q !in y.state.inFlight { RetrySound(c, y, r, q); } else { assert RequestSound(c, y, q); }
    }
    forall t: Setting ensures BitSound(c, z, t) {
      assert BitSound(c, y, t);
      WaitingKept(y.state, z.state, t);
    }
  }

  // ---------- consequences ----------

  /** A device samples only after each requested setting has succeeded, and a device without
      requested settings never does. */
  lemma SamplingIsEarned(c: Config, events: seq<Event>)
    requires Run(c, events).Some? && Run(c, events).value.state.connect == Sampling
    ensures AllSucceeded(c, Run(c, events).value) && SomeRequested(c)
  {
    hide Run, Requested, PendingSound;
    RunKeeps(c, events);
  }

  /** A pending bit has its request in flight unless one failed since the last announcement. */
  lemma PendingIsInFlight(c: Config, events: seq<Event>, s: Setting)
    requires Run(c, events).Some? && Has(Run(c, events).value.state.setBits, s)
    ensures Requested(c, s)
    ensures Waiting(Run(c, events).value.state, s) || Set(s) in Run(c, events).value.log.failed
  {
    hide Run, Requested, OnlyKnown, Has;
    RunKeeps(c, events);
    assert BitSound(c, Run(c, events).value, s);
  }

  /** When all answers are in and none since the last announcement was a failure, an announced
      device samples exactly when the configuration requested some setting. */
  lemma QuietDeviceSamplesIff(c: Config, events: seq<Event>)
    requires Run(c, events).Some? && Run(c, events).value.log.announced
    requires forall s :: !Waiting(Run(c, events).value.state, s) && Set(s) !in Run(c, events).value.log.failed
    ensures Run(c, events).value.state.connect == Sampling <==> SomeRequested(c)
  {
    hide Run, Requested, OnlyKnown, Has, SomeRequested, Waiting;
    RunKeeps(c, events);
    var y := Run(c, events).value;
    forall s ensures !Has(y.state.setBits, s) { assert BitSound(c, y, s); }
    NoneSet(y.state.setBits);
  }

  // ---------- what is sent, field by field ----------

  /** The one request for each field of the configuration, if it asks for any. */
  function Asked(c: Config): multiset<Request> {
    AskedFor(c.dataType, DataType, c.dataType) + AskedFor(c.scanPattern, ScanPattern, c.scanPattern)
    + AskedFor(c.blindSpot, BlindSpot, c.blindSpot)
    + AskedFor(c.dualEmit, DualEmit, if c.dualEmit == 0 then 0 else 1)
  }

  function AskedFor(field: int, s: Setting, sent: int): multiset<Request> {
    if field == -1 then multiset{} else multiset{Request(Set(s), sent)}
  }

  function Join(a: bv32, b: bv32): bv32 {
    a | b
  }

  /** One bit for each field that is set. */
  function WithBits(c: Config, bits: bv32): bv32 {
    var b1 := if c.dataType == -1 then bits else Join(bits, 1);
    var b2 := if c.scanPattern == -1 then b1 else Join(b1, 2);
    var b4 := if c.blindSpot == -1 then b2 else Join(b2, 4);
    if c.dualEmit == -1 then b4 else Join(b4, 8)
  }

  /** In every run a request carries the field it is for, and that field is set. */
  lemma RequestsCarryFields(c: Config, events: seq<Event>, r: Request)
    requires Run(c, events).Some? && r in Run(c, events).value.state.inFlight
    ensures r.command == Set(DataType) ==> r.value == c.dataType != -1
    ensures r.command == Set(ScanPattern) ==> r.value == c.scanPattern != -1
    ensures r.command == Set(BlindSpot) ==> r.value == c.blindSpot != -1
    ensures r.command == Set(DualEmit) ==> c.dualEmit != -1 && r.value == if c.dualEmit == 0 then 0 else 1
    ensures r.command == SetWorkMode ==> r.value == 1
  {
    hide Run, OnlyKnown, BitSound, SettingSound, ConnectSound, WorkModeSound;
    RunKeeps(c, events);
    assert RequestSound(c, Run(c, events).value, r);
  }

  /** An announcement sends what the fields ask for, each once, and the attitude, the work mode
      and the IMU; it raises the bits of the fields that are set, and no others. */
  lemma AnnouncementSends(c: Config, y: System)
    ensures var z := Next(c, y, Announce).state;
            && z.inFlight == y.state.inFlight + Asked(c)
                             + multiset{Request(SetAttitude, 0), Request(SetWorkMode, 1), Request(EnableImu, 1)}
            && z.setBits == WithBits(c, y.state.setBits)
            && z.connect == y.state.connect
  {
    hide Applied, Join, Requested, RequestFor, AskedFor;
    var st := y.state;
    var s1 := Applied(c, st, DataType);
    var s2 := Applied(c, s1, ScanPattern);
    var s3 := Applied(c, s2, BlindSpot);
    AppliedSends(c, st, DataType, c.dataType, c.dataType, 1);
    AppliedSends(c, s1, ScanPattern, c.scanPattern, c.scanPattern, 2);
    AppliedSends(c, s2, BlindSpot, c.blindSpot, c.blindSpot, 4);
    AppliedSends(c, s3, DualEmit, c.dualEmit, if c.dualEmit == 0 then 0 else 1, 8);
    Gathered(st.inFlight, AskedFor(c.dataType, DataType, c.dataType),
             AskedFor(c.scanPattern, ScanPattern, c.scanPattern), AskedFor(c.blindSpot, BlindSpot, c.blindSpot),
             AskedFor(c.dualEmit, DualEmit, if c.dualEmit == 0 then 0 else 1));
  }

  lemma Gathered(all: multiset<Request>, m1: multiset<Request>, m2: multiset<Request>, m3: multiset<Request>,
                 m4: multiset<Request>)
    ensures all + m1 + m2 + m3 + m4 == all + (m1 + m2 + m3 + m4)
  {
  }

  /** After an announcement in any run, the request for a field is in flight exactly when the
      field is set. */
  lemma InFlightIffSet(c: Config, events: seq<Event>)
    requires Run(c, events).Some?
    ensures var z := Next(c, Run(c, events).value, Announce).state.inFlight;
            && (Request(Set(DataType), c.dataType) in z <==> c.dataType != -1)
            && (Request(Set(ScanPattern), c.scanPattern) in z <==> c.scanPattern != -1)
            && (Request(Set(BlindSpot), c.blindSpot) in z <==> c.blindSpot != -1)
            && (Request(Set(DualEmit), if c.dualEmit == 0 then 0 else 1) in z <==> c.dualEmit != -1)
  {
    hide Run, Next, Asked;
    var y := Run(c, events).value;
    AnnouncementSends(c, y);
    AskedIff(c);
    forall r | r in y.state.inFlight
      ensures r.command == Set(DataType) ==> c.dataType != -1
      ensures r.command == Set(ScanPattern) ==> c.scanPattern != -1
      ensures r.command == Set(BlindSpot) ==> c.blindSpot != -1
      ensures r.command == Set(DualEmit) ==> c.dualEmit != -1
    {
      RequestsCarryFields(c, events, r);
    }
  }

  lemma AskedForIff(field: int, s: Setting, sent: int)
    ensures Request(Set(s), sent) in AskedFor(field, s, sent) <==> field != -1
    ensures forall r :: r in AskedFor(field, s, sent) ==> r.command == Set(s)
  {
  }

  lemma AskedIff(c: Config)
    ensures Request(Set(DataType), c.dataType) in Asked(c) <==> c.dataType != -1
    ensures Request(Set(ScanPattern), c.scanPattern) in Asked(c) <==> c.scanPattern != -1
    ensures Request(Set(BlindSpot), c.blindSpot) in Asked(c) <==> c.blindSpot != -1
    ensures Request(Set(DualEmit), if c.dualEmit == 0 then 0 else 1) in Asked(c) <==> c.dualEmit != -1
    ensures forall r :: r in Asked(c) ==> r.command.Set?
  {
    hide AskedFor;
    AskedForIff(c.dataType, DataType, c.dataType);
    AskedForIff(c.scanPattern, ScanPattern, c.scanPattern);
    AskedForIff(c.blindSpot, BlindSpot, c.blindSpot);
    AskedForIff(c.dualEmit, DualEmit, if c.dualEmit == 0 then 0 else 1);
  }

  lemma AppliedSends(c: Config, st: State, s: Setting, field: int, sent: int, bit: bv32)
    requires match s
             case DataType => field == c.dataType && sent == field && bit == 1
             case ScanPattern => field == c.scanPattern && sent == field && bit == 2
             case BlindSpot => field == c.blindSpot && sent == field && bit == 4
             case DualEmit => field == c.dualEmit && sent == (if field == 0 then 0 else 1) && bit == 8
    ensures var z := Applied(c, st, s);
            && z.inFlight == st.inFlight + AskedFor(field, s, sent)
            && z.setBits == (if field == -1 then st.setBits else Join(st.setBits, bit))
            && z.connect == st.connect
  {
    hide Join, Raise, Bit;
    RaiseJoins(st.setBits, s, bit);
  }

  lemma RaiseJoins(bits: bv32, s: Setting, bit: bv32)
    requires bit == match s case DataType => 1 case ScanPattern => 2 case BlindSpot => 4 case DualEmit => 8
    ensures Raise(bits, s) == Join(bits, bit)
  {
  }

  /** In every run, a setting that times out is asked for again and nothing else changes; a
      success or a failure takes its request away, and only success touches its bit. */
  lemma SettingAnswered(c: Config, events: seq<Event>, r: Request, status: Status, hasResponse: bool)
    requires Run(c, events).Some? && r in Run(c, events).value.state.inFlight && r.command.Set?
    ensures var y := Run(c, events).value.state;
            var z := Next(c, Run(c, events).value, Answer(r, status, hasResponse)).state;
            match status
            case Timeout => z == y
            case Failure => z == y.(inFlight := y.inFlight - multiset{r})
            case Success =>
              && z.inFlight == y.inFlight - multiset{r}
              && z.setBits == y.setBits & !(match r.command.setting
                                            case DataType => 1
                                            case ScanPattern => 2
                                            case BlindSpot => 4
                                            case DualEmit => 8)
              && z.connect == if z.setBits == 0 then Sampling else y.connect
  {
    hide *;
    RunKeeps(c, events);
    InFlightSound(c, Run(c, events).value, r);
    SettingStep(c, Run(c, events).value, r, status, hasResponse);
  }

  lemma InFlightSound(c: Config, y: System, r: Request)
    requires Invariant(c, y) && r in y.state.inFlight
    ensures RequestSound(c, y, r)
  {
    hide OnlyKnown, BitSound, SettingSound, ConnectSound, WorkModeSound, RequestSound;
  }

  lemma SettingStep(c: Config, y: System, r: Request, status: Status, hasResponse: bool)
    requires r in y.state.inFlight && r.command.Set? && RequestSound(c, y, r)
    ensures var z := Next(c, y, Answer(r, status, hasResponse)).state;
            match status
            case Timeout => z == y.state
            case Failure => z == y.state.(inFlight := y.state.inFlight - multiset{r})
            case Success =>
              && z.inFlight == y.state.inFlight - multiset{r}
              && z.setBits == y.state.setBits & !(match r.command.setting
                                                  case DataType => 1
                                                  case ScanPattern => 2
                                                  case BlindSpot => 4
                                                  case DualEmit => 8)
              && z.connect == if z.setBits == 0 then Sampling else y.state.connect
  {
    hide SentValue;
    TakenAndSent(y.state.inFlight, r);
  }

  lemma TakenAndSent(all: multiset<Request>, r: Request)
    requires r in all
    ensures all - multiset{r} + multiset{r} == all
  {
  }

  /** The other commands: after a time-out, and for the work mode after a failure too, the
      request is in flight as before; the IMU is given up when the answer is empty. */
  lemma CommonAnswered(c: Config, events: seq<Event>, r: Request, status: Status, hasResponse: bool)
    requires Run(c, events).Some? && r in Run(c, events).value.state.inFlight && !r.command.Set?
    ensures var y := Run(c, events).value.state;
            var z := Next(c, Run(c, events).value, Answer(r, status, hasResponse)).state;
            var again := match r.command
                         case SetAttitude => status == Timeout
                         case SetWorkMode => status != Success
                         case _ => status == Timeout && hasResponse;
            z == if again then y else y.(inFlight := y.inFlight - multiset{r})
  {
    hide Run, OnlyKnown, BitSound, SettingSound, ConnectSound, WorkModeSound, SentValue;
    RunKeeps(c, events);
    assert RequestSound(c, Run(c, events).value, r);
  }
}
