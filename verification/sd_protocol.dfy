/** The locking of SD card access in wafel_core/source/patch_asm.S: any number of threads that
    read or write the card or register the device, and the driver that calls back. The steps
    are those between which another thread or the driver can run. */
module SdProtocol {
  import opened Words

  datatype Kind = Requester | Registrar

  datatype Pc =
    | Idle
    | WantMutex            // before the wait on the card mutex
    | HaveMutex            // holding it; a requester creates its semaphore next
    | SemCreated           // own semaphore exists, count one
    | Ready                // own semaphore taken, command built
    | Submitted            // the driver accepted the command
    | Woken                // past the wait on the own semaphore
    | Finished             // result taken, or the command was refused
    | SemDestroyed         // about to give the mutex back

  /** sem is the count of the thread's own semaphore; result is the word of its stack frame
      the callback writes. req numbers the thread's requests. */
  datatype Thread = Thread(kind: Kind, pc: Pc, req: nat, sem: Option<nat>, result: Option<int>,
                           out: Option<int>, status: int)

  /** A command the driver has accepted: whose it is, and how far its callback has come. */
  datatype Command = Command(owner: nat, req: nat, stored: Option<int>)

  /** log remembers what the callback stored for each request. */
  datatype State = State(mutex: nat, threads: seq<Thread>, inflight: seq<Command>, log: map<(nat, nat), int>)

  datatype Action =
    | Start(i: nat)
    | TakeMutex(i: nat)
    | CreateSem(i: nat)
    | TakeSem(i: nat)
    | Accept(i: nat)
    | Refuse(i: nat, error: int)
    | WakeUp(i: nat)
    | ReadResult(i: nat)
    | DestroySem(i: nat)
    | Register(i: nat)
    | GiveMutex(i: nat)
    | Store(k: nat, value: int)      // callback: str r1, [r0, #4]
    | Signal(k: nat)                 // callback: signal the semaphore found in the frame

  predicate At(s: State, i: nat, kind: Kind, pc: Pc) {
    i < |s.threads| && s.threads[i].kind == kind && s.threads[i].pc == pc
  }

  predicate Enabled(s: State, a: Action) {
    match a
    case Start(i) => i < |s.threads| && s.threads[i].pc == Idle
    case TakeMutex(i) => i < |s.threads| && s.threads[i].pc == WantMutex && s.mutex > 0
    case CreateSem(i) => At(s, i, Requester, HaveMutex)
    case TakeSem(i) => At(s, i, Requester, SemCreated) && s.threads[i].sem.Some? && s.threads[i].sem.value > 0
    case Accept(i) => At(s, i, Requester, Ready)
    case Refuse(i, e) => At(s, i, Requester, Ready) && e != 0
    case WakeUp(i) => At(s, i, Requester, Submitted) && s.threads[i].sem.Some? && s.threads[i].sem.value > 0
    case ReadResult(i) => At(s, i, Requester, Woken)
    case DestroySem(i) => At(s, i, Requester, Finished)
    case Register(i) => At(s, i, Registrar, HaveMutex)
    case GiveMutex(i) => i < |s.threads| && s.threads[i].pc == SemDestroyed
    case Store(k, v) => k < |s.inflight| && s.inflight[k].stored == None
    case Signal(k) => k < |s.inflight| && s.inflight[k].stored.Some?
  }

  /** iosSignalSemaphore on a semaphore created with a maximum of one. */
  function Raised(count: nat): nat {
    if count < 1 then count + 1 else count
  }

  function With(s: State, i: nat, t: Thread): State
    requires i < |s.threads|
  {
    s.(threads := s.threads[i := t])
  }

  function Without<T>(xs: seq<T>, k: nat): seq<T>
    requires k < |xs|
  {
    xs[..k] + xs[k + 1..]
  }

  function Next(s: State, a: Action): State
    requires Enabled(s, a)
  {
    match a
    case Start(i) => With(s, i, s.threads[i].(pc := WantMutex, req := s.threads[i].req + 1, out := None, status := 0))
    case TakeMutex(i) => With(s, i, s.threads[i].(pc := HaveMutex)).(mutex := s.mutex - 1)
    case CreateSem(i) => With(s, i, s.threads[i].(pc := SemCreated, sem := Some(1), result := None))
    case TakeSem(i) => With(s, i, s.threads[i].(pc := Ready, sem := Some(s.threads[i].sem.value - 1)))
    case Accept(i) =>
      With(s, i, s.threads[i].(pc := Submitted)).(inflight := s.inflight + [Command(i, s.threads[i].req, None)])
    case Refuse(i, e) => With(s, i, s.threads[i].(pc := Finished, status := e))
    case WakeUp(i) => With(s, i, s.threads[i].(pc := Woken, sem := Some(s.threads[i].sem.value - 1)))
    case ReadResult(i) => With(s, i, s.threads[i].(pc := Finished, out := s.threads[i].result))
    case DestroySem(i) => With(s, i, s.threads[i].(pc := SemDestroyed, sem := None))
    case Register(i) => With(s, i, s.threads[i].(pc := SemDestroyed))
    case GiveMutex(i) => With(s, i, s.threads[i].(pc := Idle)).(mutex := Raised(s.mutex))
    case Store(k, v) =>
      var c := s.inflight[k];
      var s' := s.(inflight := s.inflight[k := c.(stored := Some(v))], log := s.log[(c.owner, c.req) := v]);
      if c.owner < |s.threads| then With(s', c.owner, s.threads[c.owner].(result := Some(v))) else s'
    case Signal(k) =>
      var c := s.inflight[k];
      var s' := s.(inflight := Without(s.inflight, k));
      if c.owner < |s.threads| && s.threads[c.owner].sem.Some?
      then With(s', c.owner, s.threads[c.owner].(sem := Some(Raised(s.threads[c.owner].sem.value))))
      else s'
  }

  function Run(s: State, actions: seq<Action>): Option<State> {
    if actions == [] then Some(s)
    else
      match Run(s, actions[..|actions| - 1])
      case None => None
      case Some(t) =>
        var a := actions[|actions| - 1];
        if Enabled(t, a) then Some(Next(t, a)) else None
  }

  /** sdcard_init has made the mutex, with count one; nothing has started. */
  ghost predicate Initial(s: State) {
    && s.mutex == 1 && s.inflight == [] && s.log == map[]
    && forall i :: 0 <= i < |s.threads| ==> s.threads[i].pc == Idle && s.threads[i].sem == None && s.threads[i].req == 0
  }

  // ----- the invariant -----

  predicate Holds(t: Thread) {
    !(t.pc == Idle || t.pc == WantMutex)
  }

  /** What is true of a thread by itself. */
  ghost predicate ThreadOk(t: Thread) {
    && (t.kind == Registrar ==> t.pc == Idle || t.pc == WantMutex || t.pc == HaveMutex || t.pc == SemDestroyed)
    && match t.pc
       case Idle => t.sem == None
       case WantMutex => t.sem == None && t.req > 0
       case HaveMutex => t.sem == None && t.req > 0
       case SemCreated => t.sem == Some(1) && t.req > 0
       case Ready => t.sem == Some(0) && t.req > 0
       case Submitted => t.sem == Some(0) || t.sem == Some(1)
       case Woken => t.sem == Some(0)
       case Finished => t.sem == Some(0)
       case SemDestroyed => t.sem == None
  }

  /** One holder at most, exactly when the mutex is taken. */
  ghost predicate MutexOk(s: State) {
    && s.mutex <= 1
    && (s.mutex == 1 ==> forall i :: 0 <= i < |s.threads| ==> !Holds(s.threads[i]))
    && (s.mutex == 0 ==> exists i :: 0 <= i < |s.threads| && Holds(s.threads[i]))
    && OneHolder(s.threads)
  }

  ghost predicate OneHolder(ts: seq<Thread>) {
    forall i, j :: 0 <= i < |ts| && 0 <= j < |ts| && Holds(ts[i]) && Holds(ts[j]) ==> i == j
  }

  /** The command in flight belongs to a thread that is still inside its request and waits for
      it, so the frame its callback writes to is alive; the callback stores once. */
  ghost predicate CommandOk(s: State, c: Command) {
    && c.owner < |s.threads|
    && var t := s.threads[c.owner];
       && t.pc == Submitted && t.req == c.req && t.sem == Some(0)
       && (c.stored.None? || Logged(s, c, t))
       && (c.stored.None? ==> (c.owner, c.req) !in s.log)
  }

  /** What the callback stored is in the owner's frame and remembered. */
  predicate Logged(s: State, c: Command, t: Thread) {
    t.result == c.stored && (c.owner, c.req) in s.log && Some(s.log[(c.owner, c.req)]) == c.stored
  }

  /** The thread's request has got as far as having its callback's value in the frame. */
  predicate HasResult(t: Thread) {
    t.pc == Woken || (t.pc == Submitted && t.sem == Some(1))
  }

  /** The request is over, and the driver had accepted it. */
  predicate Succeeded(t: Thread) {
    t.kind == Requester && t.req > 0 && t.status == 0 && (t.pc == Finished || t.pc == SemDestroyed || t.pc == Idle)
  }

  predicate BeforeCommand(t: Thread) {
    t.pc == WantMutex || t.pc == HaveMutex || t.pc == SemCreated || t.pc == Ready
  }

  ghost predicate ResultOk(s: State, i: nat)
    requires i < |s.threads|
  {
    var t := s.threads[i];
    && (HasResult(t) ==> t.status == 0 && (i, t.req) in s.log && t.result == Some(s.log[(i, t.req)]))
    && (Succeeded(t) ==> (i, t.req) in s.log && t.out == Some(s.log[(i, t.req)]))
    && (BeforeCommand(t) ==> t.status == 0 && (i, t.req) !in s.log)
    && (t.pc == Submitted ==> t.status == 0)
    && (t.pc == Submitted && t.sem == Some(0) ==> exists k :: 0 <= k < |s.inflight| && s.inflight[k].owner == i)
  }

  ghost predicate LogOk(s: State) {
    forall i, q :: (i, q) in s.log ==> i < |s.threads| && q <= s.threads[i].req
  }

  ghost predicate Inv(s: State) {
    && MutexOk(s) && LogOk(s)
    && |s.inflight| <= 1
    && (forall k :: 0 <= k < |s.inflight| ==> CommandOk(s, s.inflight[k]))
    && forall i :: 0 <= i < |s.threads| ==> ThreadOk(s.threads[i]) && ResultOk(s, i)
  }

  lemma InvInitial(s: State)
    requires Initial(s)
    ensures Inv(s)
  {
  }

  lemma SameHolder(s: State, s': State)
    requires MutexOk(s) && s'.mutex == s.mutex && |s'.threads| == |s.threads|
    requires forall i :: 0 <= i < |s.threads| ==> (Holds(s'.threads[i]) <==> Holds(s.threads[i]))
    ensures MutexOk(s')
  {
    if s.mutex == 0 {
      var i :| 0 <= i < |s.threads| && Holds(s.threads[i]);
      assert Holds(s'.threads[i]);
    }
  }

  /** While a thread holds the mutex, nobody else has a command in flight. */
  lemma OnlyHolderCommands(s: State, i: nat)
    requires Inv(s) && i < |s.threads| && Holds(s.threads[i])
    ensures forall k :: 0 <= k < |s.inflight| ==> s.inflight[k].owner == i && s.threads[i].pc == Submitted
  {
    forall k | 0 <= k < |s.inflight|
      ensures s.inflight[k].owner == i && s.threads[i].pc == Submitted
    {
      assert CommandOk(s, s.inflight[k]) && Holds(s.threads[s.inflight[k].owner]);
    }
  }

  lemma InvStart(s: State, i: nat)
    requires Inv(s) && Enabled(s, Start(i))
    ensures Inv(Next(s, Start(i)))
  {
    SameHolder(s, Next(s, Start(i)));
  }

  lemma InvTakeMutex(s: State, i: nat)
    requires Inv(s) && Enabled(s, TakeMutex(i))
    ensures Inv(Next(s, TakeMutex(i)))
  {
    assert Holds(Next(s, TakeMutex(i)).threads[i]);
  }

  lemma InvCreateSem(s: State, i: nat)
    requires Inv(s) && Enabled(s, CreateSem(i))
    ensures Inv(Next(s, CreateSem(i)))
  {
    SameHolder(s, Next(s, CreateSem(i)));
  }

  lemma InvTakeSem(s: State, i: nat)
    requires Inv(s) && Enabled(s, TakeSem(i))
    ensures Inv(Next(s, TakeSem(i)))
  {
    SameHolder(s, Next(s, TakeSem(i)));
  }

  lemma InvAccept(s: State, i: nat)
    requires Inv(s) && Enabled(s, Accept(i))
    ensures Inv(Next(s, Accept(i)))
  {
    OnlyHolderCommands(s, i);
    assert Next(s, Accept(i)).inflight[0].owner == i;
    SameHolder(s, Next(s, Accept(i)));
  }

  lemma InvRefuse(s: State, i: nat, e: int)
    requires Inv(s) && Enabled(s, Refuse(i, e))
    ensures Inv(Next(s, Refuse(i, e)))
  {
    SameHolder(s, Next(s, Refuse(i, e)));
  }

  lemma InvWakeUp(s: State, i: nat)
    requires Inv(s) && Enabled(s, WakeUp(i))
    ensures Inv(Next(s, WakeUp(i)))
  {
    SameHolder(s, Next(s, WakeUp(i)));
  }

  lemma InvReadResult(s: State, i: nat)
    requires Inv(s) && Enabled(s, ReadResult(i))
    ensures Inv(Next(s, ReadResult(i)))
  {
    SameHolder(s, Next(s, ReadResult(i)));
  }

  lemma InvDestroySem(s: State, i: nat)
    requires Inv(s) && Enabled(s, DestroySem(i))
    ensures Inv(Next(s, DestroySem(i)))
  {
    SameHolder(s, Next(s, DestroySem(i)));
  }

  lemma InvRegister(s: State, i: nat)
    requires Inv(s) && Enabled(s, Register(i))
    ensures Inv(Next(s, Register(i)))
  {
    SameHolder(s, Next(s, Register(i)));
  }

  lemma InvGiveMutex(s: State, i: nat)
    requires Inv(s) && Enabled(s, GiveMutex(i))
    ensures Inv(Next(s, GiveMutex(i)))
  {
  }

  lemma InvStore(s: State, k: nat, v: int)
    requires Inv(s) && Enabled(s, Store(k, v))
    ensures Inv(Next(s, Store(k, v)))
  {
    SameHolder(s, Next(s, Store(k, v)));
    assert Next(s, Store(k, v)).inflight[0].owner == s.inflight[0].owner;
  }

  lemma InvSignal(s: State, k: nat)
    requires Inv(s) && Enabled(s, Signal(k))
    ensures Inv(Next(s, Signal(k)))
  {
    SameHolder(s, Next(s, Signal(k)));
  }

  /** Every step keeps the invariant. */
  lemma InvStep(s: State, a: Action)
    requires Inv(s) && Enabled(s, a)
    ensures Inv(Next(s, a))
  {
    hide Inv, Enabled, Next;
    match a
    case Start(i) => InvStart(s, i);
    case TakeMutex(i) => InvTakeMutex(s, i);
    case CreateSem(i) => InvCreateSem(s, i);
    case TakeSem(i) => InvTakeSem(s, i);
    case Accept(i) => InvAccept(s, i);
    case Refuse(i, e) => InvRefuse(s, i, e);
    case WakeUp(i) => InvWakeUp(s, i);
    case ReadResult(i) => InvReadResult(s, i);
    case DestroySem(i) => InvDestroySem(s, i);
    case Register(i) => InvRegister(s, i);
    case GiveMutex(i) => InvGiveMutex(s, i);
    case Store(k, v) => InvStore(s, k, v);
    case Signal(k) => InvSignal(s, k);
  }

  // ----- every run -----

  lemma {:induction false} InvRun(s: State, actions: seq<Action>, t: State)
    requires Initial(s) && Run(s, actions) == Some(t)
    ensures Inv(t)
    decreases |actions|
  {
    hide Inv, Initial, Enabled, Next;
    if actions == [] {
      InvInitial(s);
    } else {
      var before := actions[..|actions| - 1];
      var u := Run(s, before).value;
      InvRun(s, before, u);
      InvStep(u, actions[|actions| - 1]);
    }
  }

  /** In every reachable state: one command at most is with the driver; its owner is still in
      the request it was made for; one thread at most is between taking and giving back the
      mutex, and none once it is free; and a request that succeeded has handed out exactly the
      value its own callback stored. */
  lemma SafeInEveryRun(s: State, actions: seq<Action>, t: State)
    requires Initial(s) && Run(s, actions) == Some(t)
    ensures |t.inflight| <= 1
    ensures forall k :: 0 <= k < |t.inflight| ==> var c := t.inflight[k];
      c.owner < |t.threads| && t.threads[c.owner].pc == Submitted && t.threads[c.owner].req == c.req
    ensures OneHolder(t.threads)
    ensures t.mutex == 1 <==> forall i :: 0 <= i < |t.threads| ==> !Holds(t.threads[i])
    ensures forall i :: 0 <= i < |t.threads| && Succeeded(t.threads[i]) ==>
      (i, t.threads[i].req) in t.log && t.threads[i].out == Some(t.log[(i, t.threads[i].req)])
  {
    InvRun(s, actions, t);
    forall k | 0 <= k < |t.inflight|
      ensures var c := t.inflight[k];
        c.owner < |t.threads| && t.threads[c.owner].pc == Submitted && t.threads[c.owner].req == c.req
    {
      assert CommandOk(t, t.inflight[k]);
    }
  }

  /** The callback stores at most once a request: what is logged stays. */
  lemma LogOnlyGrows(s: State, a: Action, i: nat, q: nat)
    requires Inv(s) && Enabled(s, a) && (i, q) in s.log
    ensures (i, q) in Next(s, a).log && Next(s, a).log[(i, q)] == s.log[(i, q)]
  {
    if a.Store? {
      assert CommandOk(s, s.inflight[a.k]);
    }
  }

  // ----- nothing is lost and nothing waits for ever -----

  ghost predicate Stirs(s: State, a: Action) {
    !a.Start? && Enabled(s, a)
  }

  /** Unless every thread is idle, some thread or the driver can go on. So a callback that ran
      before its wait was not lost, and the mutex was given back. */
  lemma NeverStuck(s: State, i: nat)
    requires Inv(s) && i < |s.threads| && s.threads[i].pc != Idle
    ensures exists a :: Stirs(s, a)
  {
    if s.inflight != [] {
      assert Stirs(s, if s.inflight[0].stored == None then Store(0, 0) else Signal(0));
    } else if s.mutex == 1 {
      assert Stirs(s, TakeMutex(i));
    } else {
      var h :| 0 <= h < |s.threads| && Holds(s.threads[h]);
      HolderGoesOn(s, h);
    }
  }

  lemma HolderGoesOn(s: State, h: nat)
    requires Inv(s) && h < |s.threads| && Holds(s.threads[h]) && s.inflight == []
    ensures exists a :: Stirs(s, a)
  {
    var t := s.threads[h];
    assert ThreadOk(t) && ResultOk(s, h);
    var a :=
      match t.pc
      case HaveMutex => if t.kind == Registrar then Register(h) else CreateSem(h)
      case SemCreated => TakeSem(h)
      case Ready => Accept(h)
      case Submitted => WakeUp(h)
      case Woken => ReadResult(h)
      case Finished => DestroySem(h)
      case _ => GiveMutex(h);
    assert Stirs(s, a);
  }

  /** How many steps a request can still take, at most. */
  function StepsLeft(pc: Pc): nat {
    match pc
    case Idle => 0
    case WantMutex => 10
    case HaveMutex => 9
    case SemCreated => 8
    case Ready => 7
    case Submitted => 4
    case Woken => 3
    case Finished => 2
    case SemDestroyed => 1
  }

  function ThreadSteps(ts: seq<Thread>): nat {
    if ts == [] then 0 else ThreadSteps(ts[..|ts| - 1]) + StepsLeft(ts[|ts| - 1].pc)
  }

  function DriverSteps(cs: seq<Command>): nat {
    if cs == [] then 0 else DriverSteps(cs[..|cs| - 1]) + if cs[|cs| - 1].stored == None then 2 else 1
  }

  function Rank(s: State): nat {
    ThreadSteps(s.threads) + DriverSteps(s.inflight)
  }

  lemma {:induction false} ThreadStepsUpdate(ts: seq<Thread>, i: nat, t: Thread)
    requires i < |ts|
    ensures ThreadSteps(ts[i := t]) == ThreadSteps(ts) - StepsLeft(ts[i].pc) + StepsLeft(t.pc)
    decreases |ts|
  {
    var n := |ts| - 1;
    if i < n {
      ThreadStepsUpdate(ts[..n], i, t);
      assert ts[i := t][..n] == ts[..n][i := t];
    } else {
      assert ts[i := t][..n] == ts[..n];
    }
  }

  lemma DriverStepCosts(s: State, a: Action)
    requires Inv(s) && Enabled(s, a) && (a.Store? || a.Signal?)
    ensures Rank(Next(s, a)) < Rank(s)
  {
    hide MutexOk, LogOk, ResultOk, ThreadSteps, Logged;
    var c := s.inflight[0];
    assert CommandOk(s, c) && s.inflight == [c];
    var t := s.threads[c.owner];
    OneCommand(c);
    if a.Store? {
      ThreadStepsUpdate(s.threads, c.owner, t.(result := Some(a.value)));
      OneCommand(c.(stored := Some(a.value)));
      assert Next(s, a).inflight == [c.(stored := Some(a.value))];
    } else {
      ThreadStepsUpdate(s.threads, c.owner, t.(sem := Some(Raised(t.sem.value))));
      assert Next(s, a).inflight == [];
    }
  }

  lemma OneCommand(c: Command)
    ensures DriverSteps([c]) == (if c.stored == None then 2 else 1) && DriverSteps([]) == 0
  {
    assert [c][..0] == [];
  }

  /** A step that is not the driver's changes one thread. */
  lemma OneThreadMoves(s: State, a: Action)
    requires Enabled(s, a) && !a.Store? && !a.Signal?
    ensures a.i < |s.threads| && |Next(s, a).threads| == |s.threads|
    ensures Next(s, a).threads == s.threads[a.i := Next(s, a).threads[a.i]]
  {
    hide Raised;
  }

  lemma PcAfter(s: State, a: Action)
    requires Enabled(s, a) && !a.Store? && !a.Signal?
    requires a.i < |s.threads| == |Next(s, a).threads|
    ensures var before, after := StepsLeft(s.threads[a.i].pc), StepsLeft(Next(s, a).threads[a.i].pc);
      after + (if a.Accept? then 3 else 1) <= before + if a.Start? then 11 else 0
    ensures a.Start? ==> StepsLeft(Next(s, a).threads[a.i].pc) == StepsLeft(s.threads[a.i].pc) + 10
  {
    hide Raised;
  }

  lemma DriverAfter(s: State, a: Action)
    requires Enabled(s, a) && !a.Store? && !a.Signal?
    ensures DriverSteps(Next(s, a).inflight) == DriverSteps(s.inflight) + if a.Accept? then 2 else 0
  {
    hide Raised;
    if a.Accept? {
      var c := Command(a.i, s.threads[a.i].req, None);
      assert Next(s, a).inflight == s.inflight + [c];
      hide Next, Enabled;
      assert (s.inflight + [c])[..|s.inflight|] == s.inflight;
    } else {
      assert Next(s, a).inflight == s.inflight;
    }
  }

  lemma ThreadStepCosts(s: State, a: Action)
    requires Enabled(s, a) && !a.Store? && !a.Signal?
    ensures if a.Start? then Rank(Next(s, a)) == Rank(s) + 10 else Rank(Next(s, a)) < Rank(s)
  {
    hide Next, Enabled, StepsLeft, DriverSteps, ThreadSteps;
    OneThreadMoves(s, a);
    ThreadStepsUpdate(s.threads, a.i, Next(s, a).threads[a.i]);
    PcAfter(s, a);
    DriverAfter(s, a);
  }

  /** Every step but the start of a new request brings the end nearer; a start adds ten. */
  lemma StepCosts(s: State, a: Action)
    requires Inv(s) && Enabled(s, a)
    ensures if a.Start? then Rank(Next(s, a)) == Rank(s) + 10 else Rank(Next(s, a)) < Rank(s)
  {
    hide Inv, Enabled, Next, Rank;
    if a.Store? || a.Signal? {
      DriverStepCosts(s, a);
    } else {
      ThreadStepCosts(s, a);
    }
  }

  function Starts(actions: seq<Action>): nat {
    if actions == [] then 0 else Starts(actions[..|actions| - 1]) + if actions[|actions| - 1].Start? then 1 else 0
  }

  /** It counts the starts. */
  lemma {:induction false} StartsAreCounted(actions: seq<Action>)
    ensures Starts(actions) == |set k | 0 <= k < |actions| && actions[k].Start?|
    decreases |actions|
  {
    if actions != [] {
      var n := |actions| - 1;
      var before := actions[..n];
      StartsAreCounted(before);
      var first := set k | 0 <= k < n && before[k].Start?;
      var all := set k | 0 <= k < |actions| && actions[k].Start?;
      assert all == first + if actions[n].Start? then {n} else {};
    }
  }

  /** Every run is bounded by the requests started in it: whatever the scheduler does, n
      requests take at most eleven steps each, and by NeverStuck they all get to the end. */
  lemma {:induction false} RunsAreBounded(s: State, actions: seq<Action>, t: State)
    requires Initial(s) && Run(s, actions) == Some(t)
    ensures |actions| + Rank(t) <= 11 * Starts(actions)
    decreases |actions|
  {
    hide Inv, Initial, Enabled, Next, Rank;
    if actions == [] {
      InitialRank(s, s.threads);
    } else {
      var before := actions[..|actions| - 1];
      var u := Run(s, before).value;
      RunsAreBounded(s, before, u);
      InvRun(s, before, u);
      StepCosts(u, actions[|actions| - 1]);
    }
  }

  lemma {:induction false} InitialRank(s: State, ts: seq<Thread>)
    requires Initial(s) && ts <= s.threads
    ensures ThreadSteps(ts) == 0 && (ts == s.threads ==> Rank(s) == 0)
    decreases |ts|
  {
    if ts != [] {
      InitialRank(s, ts[..|ts| - 1]);
    }
  }
}
