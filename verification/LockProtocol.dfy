/**
 * The server's threads as interleaved steps: any number of connection handlers, and the timer's
 * threads in file mode, around one error-checking mutex and one store. Each read or write of the
 * device is one step, since the driver takes its own lock for the length of a call.
 */
module LockProtocol {
  import opened Bytes
  import opened DataFileModel
  import opened DeviceModel

  // ---- the store ----

  datatype Store = DeviceStore(dev: Dev) | FileStore(bytes: seq<byte>) {
    ghost predicate WellFormed() {
      DeviceStore? ==> dev.WellFormed()
    }

    /** Where a fresh handle stands after the seek to the end, which does nothing on the device. */
    function EndPosition(): nat {
      if FileStore? then |bytes| else 0
    }

    /** What a read call at pos returns. */
    function ReadAt(pos: nat): seq<byte> {
      match this
      case DeviceStore(dev) => dev.ReadChunk(pos)
      case FileStore(bytes) =>
        if pos >= |bytes| then [] else bytes[pos..if pos + READ_SIZE < |bytes| then pos + READ_SIZE else |bytes|]
    }

    /** Everything there is to read from pos on. */
    function Rest(pos: nat): seq<byte> {
      match this
      case DeviceStore(dev) => Remaining(dev, pos)
      case FileStore(bytes) => if pos <= |bytes| then bytes[pos..] else []
    }

    /** The line of a handler, through its handle at pos. In file mode nothing is a seek request. */
    function Append(pos: nat, req: Request): Store
      requires WellFormed()
    {
      match this
      case DeviceStore(dev) => DeviceStore(After(dev, req))
      case FileStore(bytes) => FileStore(if req.WriteLine? then Overwrite(bytes, pos, req.bytes) else bytes)
    }

    /** No read of the response loop from pos on overruns its buffer. */
    ghost predicate ReadsFit(pos: nat) {
      DeviceStore? ==> DeviceModel.ReadsFit(dev, pos, READ_SIZE)
    }

    /** Where the response starts: rewound in file mode, left to the driver in device mode. */
    function ResponseStart(req: Request): nat {
      match this
      case DeviceStore(dev) => Position(dev, req)
      case FileStore(_) => 0
    }
  }

  function Overwrite(bytes: seq<byte>, pos: nat, data: seq<byte>): seq<byte> {
    if pos <= |bytes| then WriteAt(bytes, pos, data) else bytes
  }

  lemma ReadAdvances(s: Store, pos: nat)
    ensures var chunk := s.ReadAt(pos);
      && s.Rest(pos) == chunk + s.Rest(pos + |chunk|)
      && (chunk == [] <==> s.Rest(pos) == [])
  {
    match s
    case DeviceStore(dev) => ReadTakesAPiece(dev, pos);
    case FileStore(bytes) =>
  }

  // ---- threads, mutex, events ----

  datatype Pc =
    | Receiving                                       // in recv, or framing; no lock
    | Waiting(req: Request, pos: nat)                 // a line is complete and the handle opened
    | Holding(req: Request, pos: nat)                 // locked, before append_datafile
    | Responding(ok: bool, count: nat, start: nat, pos: nat, sent: seq<byte>)
    | Unlocking
    | Leaving                                         // loop left or cancelled; cleanup still to run
    | TimerWaiting(stamp: seq<byte>)
    | TimerHolding(stamp: seq<byte>)
    | TimerUnlocking
    | Finished

  /** An append that succeeded: whose, through a handle at which position, and of what. */
  datatype Delivery = Delivery(t: nat, pos: nat, req: Request)

  /**
   * A response at the end of its loop, or cut off in it: whose, whether the own append had succeeded,
   * how many appends had by then, where it started, what was sent, and whether the loop ran to the end
   * of the data.
   */
  datatype Response = Response(t: nat, ok: bool, count: nat, start: nat, sent: seq<byte>, complete: bool)

  /** `initial`, `history` and `log` record the run: they decide nothing, and only go into what is recorded. */
  datatype System = System(threads: map<nat, Pc>, owner: Option<nat>, store: Store,
                           initial: Store, history: seq<Delivery>, log: seq<Response>)
  {
    function At(t: nat): Pc {
      if t in threads then threads[t] else Finished
    }

    function Move(t: nat, pc: Pc): System {
      this.(threads := threads[t := pc])
    }

    /** pthread_mutex_unlock on an error-checking mutex: refused unless t is the owner. */
    function Release(t: nat): System {
      if owner == Some(t) then this.(owner := None) else this
    }
  }

  datatype Event =
    | Accept(t: nat)
    | Fire(t: nat, stamp: seq<byte>)
    | Receive(t: nat, req: Request)
    | Hangup(t: nat)
    | Lock(t: nat)
    | LockFails(t: nat)
    | AppendLine(t: nat, ok: bool)
    | ReadSend(t: nat, readOk: bool, sendOk: bool)
    | Unlock(t: nat)
    | Cancel(t: nat)
    | Cleanup(t: nat)

  predicate InSection(pc: Pc) {
    pc.Holding? || pc.Responding? || pc.Unlocking? || pc.TimerHolding? || pc.TimerUnlocking?
  }

  predicate IsTimer(pc: Pc) {
    pc.TimerWaiting? || pc.TimerHolding? || pc.TimerUnlocking?
  }

  /** One step of one thread; an event that the thread cannot take changes nothing. */
  function Step(s: System, e: Event): System
    requires s.store.WellFormed()
  {
    var pc := s.At(e.t);
    match e
    case Accept(t) => if t in s.threads then s else s.Move(t, Receiving)
    case Fire(t, stamp) => if t in s.threads || !s.store.FileStore? then s else s.Move(t, TimerWaiting(stamp))
    case Receive(t, req) =>
      if !pc.Receiving? || (s.store.FileStore? && !req.WriteLine?) then s
      else s.Move(t, Waiting(req, s.store.EndPosition()))
    case Hangup(t) => if pc.Receiving? then s.Move(t, Leaving) else s
    case Lock(t) => LockStep(s, t, pc)
    case LockFails(t) =>
      if pc.Waiting? then s.Move(t, Leaving) else if pc.TimerWaiting? then s.Move(t, Finished) else s
    case AppendLine(t, ok) => AppendStep(s, t, pc, ok)
    case ReadSend(t, readOk, sendOk) => if pc.Responding? then ReadStep(s, t, pc, readOk, sendOk) else s
    case Unlock(t) =>
      if !pc.Unlocking? && !pc.TimerUnlocking? then s
      else if pc.TimerUnlocking? then s.Release(t).Move(t, Finished)
      else if s.owner == Some(t) then s.Release(t).Move(t, Receiving)
      else s.Move(t, Leaving)
    case Cancel(t) =>
      if IsTimer(pc) || pc.Finished? then s
      else if pc.Responding? then Log(s, t, pc, false).Move(t, Leaving)
      else s.Move(t, Leaving)
    case Cleanup(t) => if pc.Leaving? then s.Release(t).Move(t, Finished) else s
  }

  /** A lock call blocks while another thread owns the mutex, and fails when the caller does. */
  function LockStep(s: System, t: nat, pc: Pc): System {
    if !pc.Waiting? && !pc.TimerWaiting? then s
    else if s.owner == Some(t) then s.Move(t, if pc.Waiting? then Leaving else Finished)
    else if s.owner.Some? then s
    else
      var locked := s.(owner := Some(t));
      if pc.Waiting? then locked.Move(t, Holding(pc.req, pc.pos)) else locked.Move(t, TimerHolding(pc.stamp))
  }

  /** The append of a handler, at the position it sought before locking, or of the timer. */
  function AppendStep(s: System, t: nat, pc: Pc, ok: bool): System
    requires s.store.WellFormed()
  {
    match pc
    case Holding(req, pos) =>
      if ok then
        var start := s.store.ResponseStart(req);
        Deliver(s, Delivery(t, pos, req)).Move(t, Responding(true, |s.history| + 1, start, start, []))
      else s.Move(t, Responding(false, |s.history|, 0, 0, []))
    case TimerHolding(stamp) =>
      (if ok then Deliver(s, Delivery(t, s.store.EndPosition(), WriteLine(stamp))) else s).Move(t, TimerUnlocking)
    case _ => s
  }

  function Deliver(s: System, d: Delivery): System
    requires s.store.WellFormed()
  {
    s.(store := s.store.Append(d.pos, d.req), history := s.history + [d])
  }

  /**
   * One round of send_response; a failed read ends it like the end of the data does. A read that
   * overruns the response buffer has no meaning here, and the thread stays where it is.
   */
  function ReadStep(s: System, t: nat, pc: Pc, readOk: bool, sendOk: bool): System
    requires pc.Responding?
  {
    var chunk := s.store.ReadAt(pc.pos);
    if readOk && |chunk| > READ_SIZE then s
    else if !readOk || chunk == [] then Log(s, t, pc, readOk).Move(t, Unlocking)
    else if !sendOk then Log(s, t, pc, false).Move(t, Leaving)
    else s.Move(t, pc.(pos := pc.pos + |chunk|, sent := pc.sent + chunk))
  }

  function Log(s: System, t: nat, pc: Pc, complete: bool): System
    requires pc.Responding?
  {
    s.(log := s.log + [Response(t, pc.ok, pc.count, pc.start, pc.sent, complete)])
  }

  // ---- what every step keeps ----

  /** The store after some appends. */
  function Replay(initial: Store, h: seq<Delivery>): (s: Store)
    requires initial.WellFormed()
    ensures s.WellFormed() && (s.FileStore? <==> initial.FileStore?)
  {
    if h == [] then initial
    else
      var before, d := Replay(initial, h[..|h| - 1]), h[|h| - 1];
      AppendKeepsWellFormed(before, d.pos, d.req);
      before.Append(d.pos, d.req)
  }

  lemma AppendKeepsWellFormed(s: Store, pos: nat, req: Request)
    requires s.WellFormed()
    ensures s.Append(pos, req).WellFormed()
    ensures s.EndPosition() <= s.Append(pos, req).EndPosition()
  {
    if s.FileStore? && req.WriteLine? && req.bytes != [] && pos <= |s.bytes| {
      WriteAppendsIff(s.bytes, pos, req.bytes);
    }
    if s.DeviceStore? && req.WriteLine? { WriteKeepsWellFormed(s.dev, req.bytes); }
  }

  lemma ReplayOneMore(initial: Store, h: seq<Delivery>, d: Delivery)
    requires initial.WellFormed()
    ensures Replay(initial, h + [d]) == Replay(initial, h).Append(d.pos, d.req)
  {
    assert (h + [d])[..|h|] == h;
  }

  /** Where a response starts whose own append, if it succeeded, was the last of `h`. */
  ghost predicate Started(initial: Store, h: seq<Delivery>, t: nat, ok: bool, start: nat)
    requires initial.WellFormed()
  {
    if !ok then start == 0
    else
      && h != [] && h[|h| - 1].t == t
      && start == Replay(initial, h[..|h| - 1]).ResponseStart(h[|h| - 1].req)
  }

  /** A response is a piece, and if complete the whole, of the store after the first `count` appends. */
  ghost predicate RecordOk(initial: Store, history: seq<Delivery>, r: Response)
    requires initial.WellFormed()
  {
    && r.count <= |history|
    && Started(initial, history[..r.count], r.t, r.ok, r.start)
    && var whole := Replay(initial, history[..r.count]).Rest(r.start);
       r.sent <= whole && (r.complete ==> r.sent == whole)
  }

  ghost predicate LogBelow(log: seq<Response>, n: nat) {
    forall r :: r in log ==> r.count < n
  }

  /** Responses come in the order of the appends, and one whose append succeeded has that append alone. */
  ghost predicate InOrder(log: seq<Response>) {
    forall j, k | 0 <= j < k < |log| ::
      log[j].count <= log[k].count && (log[k].ok ==> log[j].count < log[k].count)
  }

  /** A thread in the section owns the mutex, and its owner is in the section or on its way out. */
  ghost predicate ThreadOk(s: System, t: nat) {
    var pc := s.At(t);
    && (InSection(pc) ==> s.owner == Some(t))
    && (s.owner == Some(t) ==> InSection(pc) || pc.Leaving?)
    && (IsTimer(pc) ==> s.store.FileStore?)
    && (pc.Waiting? || pc.Holding? ==> pc.pos <= s.store.EndPosition())
  }

  /** A response in progress belongs to the latest append, and nothing of the store is lost between reads. */
  ghost predicate LoopOk(s: System, t: nat)
    requires s.initial.WellFormed()
  {
    var pc := s.At(t);
    pc.Responding? ==>
      && pc.count == |s.history| && Started(s.initial, s.history, t, pc.ok, pc.start)
      && s.store.Rest(pc.start) == pc.sent + s.store.Rest(pc.pos)
      && (pc.ok ==> LogBelow(s.log, pc.count))
  }

  ghost predicate StoreOk(s: System) {
    s.initial.WellFormed() && s.store == Replay(s.initial, s.history)
  }

  ghost predicate RecordsOk(s: System)
    requires s.initial.WellFormed()
  {
    (forall r :: r in s.log ==> RecordOk(s.initial, s.history, r)) && InOrder(s.log)
  }

  ghost predicate Inv(s: System) {
    && StoreOk(s) && s.store.WellFormed()
    && (forall t: nat :: ThreadOk(s, t))
    && (forall t: nat :: LoopOk(s, t))
    && RecordsOk(s)
  }

  function Initial(store: Store): (s: System)
    requires store.WellFormed()
    ensures Inv(s)
  {
    System(map[], None, store, store, [], [])
  }

  /** Only the thread that owns the mutex changes the store, and what it did is recorded. */
  lemma StoreChangesUnderLock(s: System, e: Event)
    requires Inv(s)
    ensures var s' := Step(s, e);
      s'.store != s.store || s'.history != s.history ==>
        && e.AppendLine? && e.ok && s.owner == Some(e.t)
        && |s'.history| == |s.history| + 1 && s'.history[..|s.history|] == s.history
        && s'.history[|s.history|].t == e.t
  {
    assert ThreadOk(s, e.t);
  }

  lemma StepKeepsStore(s: System, e: Event)
    requires StoreOk(s)
    ensures Step(s, e).initial == s.initial && StoreOk(Step(s, e)) && Step(s, e).store.WellFormed()
  {
    var pc := s.At(e.t);
    if e.AppendLine? && e.ok {
      if pc.Holding? { ReplayOneMore(s.initial, s.history, Delivery(e.t, pc.pos, pc.req)); }
      if pc.TimerHolding? {
        ReplayOneMore(s.initial, s.history, Delivery(e.t, s.store.EndPosition(), WriteLine(pc.stamp)));
      }
    }
  }

  lemma StepKeepsKind(s: System, e: Event)
    requires s.store.WellFormed()
    ensures Step(s, e).store.WellFormed()
    ensures s.store.EndPosition() <= Step(s, e).store.EndPosition()
    ensures s.store.FileStore? <==> Step(s, e).store.FileStore?
  {
    var pc := s.At(e.t);
    if e.AppendLine? {
      if pc.Holding? { AppendKeepsWellFormed(s.store, pc.pos, pc.req); }
      if pc.TimerHolding? { AppendKeepsWellFormed(s.store, s.store.EndPosition(), WriteLine(pc.stamp)); }
    }
  }

  lemma OwnStepKeepsThread(s: System, e: Event)
    requires s.store.WellFormed() && ThreadOk(s, e.t)
    ensures ThreadOk(Step(s, e), e.t)
  {
    StepKeepsKind(s, e);
  }

  lemma OtherStepKeepsThread(s: System, e: Event, u: nat)
    requires s.store.WellFormed() && ThreadOk(s, e.t) && ThreadOk(s, u) && u != e.t
    ensures ThreadOk(Step(s, e), u)
  {
    StepKeepsKind(s, e);
  }

  /** The read loop of u goes on undisturbed while other threads step, and its own steps keep its bytes. */
  lemma StepKeepsLoop(s: System, e: Event, u: nat)
    requires Inv(s)
    ensures Step(s, e).initial == s.initial && LoopOk(Step(s, e), u)
  {
    assert ThreadOk(s, u) && ThreadOk(s, e.t) && LoopOk(s, u);
    if e.t != u {
      OtherStepKeepsLoop(s, e, u);
    } else if e.ReadSend? && s.At(u).Responding? {
      ReadKeepsLoop(s, u, e.readOk, e.sendOk);
    } else if e.AppendLine? && s.At(u).Holding? {
      AppendStartsLoop(s, u, e.ok);
    }
  }

  lemma OtherStepKeepsLoop(s: System, e: Event, u: nat)
    requires s.initial.WellFormed() && s.store.WellFormed() && ThreadOk(s, u) && ThreadOk(s, e.t)
    requires e.t != u && LoopOk(s, u)
    ensures Step(s, e).initial == s.initial && LoopOk(Step(s, e), u)
  {
    if s.At(u).Responding? { OtherStepLeavesOwner(s, e, u); }
  }

  /** No other thread changes what the owner sees. */
  lemma OtherStepLeavesOwner(s: System, e: Event, t: nat)
    requires s.store.WellFormed() && ThreadOk(s, e.t) && s.owner == Some(t) && e.t != t
    ensures var s' := Step(s, e);
      && s'.owner == Some(t) && s'.At(t) == s.At(t)
      && s'.store == s.store && s'.history == s.history && s'.log == s.log
  {
  }

  lemma ReadKeepsLoop(s: System, t: nat, readOk: bool, sendOk: bool)
    requires s.initial.WellFormed() && LoopOk(s, t) && s.At(t).Responding?
    ensures LoopOk(ReadStep(s, t, s.At(t), readOk, sendOk), t)
  {
    var pc := s.At(t);
    var chunk := s.store.ReadAt(pc.pos);
    ReadAdvances(s.store, pc.pos);
    Assoc(pc.sent, chunk, s.store.Rest(pc.pos + |chunk|));
  }

  lemma AppendStartsLoop(s: System, t: nat, ok: bool)
    requires Inv(s) && s.At(t).Holding?
    ensures LoopOk(AppendStep(s, t, s.At(t), ok), t)
  {
    var s', pc := AppendStep(s, t, s.At(t), ok), s.At(t);
    var start := s'.At(t).start;
    assert [] + s'.store.Rest(start) == s'.store.Rest(start);
    if ok {
      assert s'.history[..|s.history|] == s.history;
      forall r | r in s'.log ensures r.count < |s'.history| {
        assert RecordOk(s.initial, s.history, r);
      }
    }
  }

  lemma RecordStays(initial: Store, h: seq<Delivery>, d: Delivery, r: Response)
    requires initial.WellFormed() && RecordOk(initial, h, r)
    ensures RecordOk(initial, h + [d], r)
  {
    assert (h + [d])[..r.count] == h[..r.count];
  }

  lemma StepKeepsRecords(s: System, e: Event)
    requires Inv(s)
    ensures Step(s, e).initial == s.initial && RecordsOk(Step(s, e))
  {
    var s', pc := Step(s, e), s.At(e.t);
    if e.ReadSend? && pc.Responding? {
      ReadKeepsRecords(s, e.t, e.readOk, e.sendOk);
    } else if e.Cancel? && pc.Responding? {
      LogOneMore(s, e.t, false);
    } else {
      StoreChangesUnderLock(s, e);
      if s'.history != s.history {
        assert s'.history == s.history + [s'.history[|s.history|]];
        forall r | r in s'.log ensures RecordOk(s.initial, s'.history, r) {
          RecordStays(s.initial, s.history, s'.history[|s.history|], r);
        }
      }
    }
  }

  lemma ReadKeepsRecords(s: System, t: nat, readOk: bool, sendOk: bool)
    requires Inv(s) && s.At(t).Responding?
    ensures RecordsOk(ReadStep(s, t, s.At(t), readOk, sendOk))
  {
    var pc := s.At(t);
    assert LoopOk(s, t);
    ReadAdvances(s.store, pc.pos);
    LogOneMore(s, t, readOk && s.store.ReadAt(pc.pos) == []);
  }

  /** The record of a loop that has nothing left to send, or is given up. */
  lemma LogOneMore(s: System, t: nat, complete: bool)
    requires Inv(s) && s.At(t).Responding?
    requires complete ==> s.store.Rest(s.At(t).pos) == []
    ensures RecordsOk(Log(s, t, s.At(t), complete))
  {
    var pc := s.At(t);
    assert LoopOk(s, t);
    NewRecordOk(s, t, complete);
    forall r | r in s.log ensures r.count <= pc.count {
      assert RecordOk(s.initial, s.history, r);
    }
    InOrderOneMore(s.log, Response(t, pc.ok, pc.count, pc.start, pc.sent, complete));
  }

  lemma NewRecordOk(s: System, t: nat, complete: bool)
    requires StoreOk(s) && LoopOk(s, t) && s.At(t).Responding?
    requires complete ==> s.store.Rest(s.At(t).pos) == []
    ensures var pc := s.At(t);
      RecordOk(s.initial, s.history, Response(t, pc.ok, pc.count, pc.start, pc.sent, complete))
  {
    var pc := s.At(t);
    PrefixOfWhole(pc.sent, s.store.Rest(pc.pos));
    assert s.history[..pc.count] == s.history;
  }

  lemma InOrderOneMore(log: seq<Response>, last: Response)
    requires InOrder(log) && forall r :: r in log ==> r.count <= last.count && (last.ok ==> r.count < last.count)
    ensures InOrder(log + [last])
  {
    assert forall k | 0 <= k < |log| :: log[k] in log;
  }

  lemma StepKeepsInv(s: System, e: Event)
    requires Inv(s)
    ensures Inv(Step(s, e)) && Step(s, e).initial == s.initial
  {
    StepKeepsStore(s, e);
    StepKeepsRecords(s, e);
    forall u: nat ensures ThreadOk(Step(s, e), u) {
      assert ThreadOk(s, u) && ThreadOk(s, e.t);
      if u == e.t { OwnStepKeepsThread(s, e); } else { OtherStepKeepsThread(s, e, u); }
    }
    forall u: nat ensures LoopOk(Step(s, e), u) {
      StepKeepsLoop(s, e, u);
    }
  }

  lemma PrefixOfWhole(sent: seq<byte>, rest: seq<byte>)
    ensures sent <= sent + rest && (rest == [] ==> sent + rest == sent)
  {
  }

  function Run(s: System, es: seq<Event>): (s': System)
    requires Inv(s)
    ensures Inv(s') && s'.initial == s.initial
  {
    if es == [] then s
    else
      var before := Run(s, es[..|es| - 1]);
      StepKeepsInv(before, es[|es| - 1]);
      Step(before, es[|es| - 1])
  }

  lemma RunOneMore(s: System, es: seq<Event>, e: Event)
    requires Inv(s)
    ensures Run(s, es + [e]) == Step(Run(s, es), e)
  {
    assert (es + [e])[..|es|] == es;
  }

  lemma SnocConcat<T>(a: seq<T>, b: seq<T>)
    requires b != []
    ensures b == b[..|b| - 1] + [b[|b| - 1]] && a + b == (a + b[..|b| - 1]) + [b[|b| - 1]]
  {
  }

  lemma {:induction false} RunConcat(s: System, a: seq<Event>, b: seq<Event>)
    requires Inv(s)
    ensures Run(s, a + b) == Run(Run(s, a), b)
  {
    if b == [] {
      assert a + b == a;
    } else {
      var before, e := b[..|b| - 1], b[|b| - 1];
      RunConcat(s, a, before);
      SnocConcat(a, b);
      RunOneMore(s, a + before, e);
      RunOneMore(Run(s, a), before, e);
    }
  }

  lemma RunFromStep(s: System, e: Event, es: seq<Event>)
    requires Inv(s)
    ensures Inv(Step(s, e))
    ensures Run(s, [e] + es) == Run(Step(s, e), es)
  {
    RunOneMore(s, [], e);
    assert [] + [e] == [e];
    RunConcat(s, [e], es);
  }

  // ---- safety of every run ----

  /** Exclusion: two threads are never in the append/response section together. */
  lemma Exclusion(store: Store, es: seq<Event>, t: nat, u: nat)
    requires store.WellFormed()
    requires InSection(Run(Initial(store), es).At(t)) && InSection(Run(Initial(store), es).At(u))
    ensures t == u
  {
    var s := Run(Initial(store), es);
    assert ThreadOk(s, t) && ThreadOk(s, u);
  }

  /**
   * In every run a thread that owns the mutex is in the section or leaving; one that unlocks owns it,
   * and one that receives or waits does not. So no unlock is refused, and the cleanup handler gives
   * up the lock of its own thread and leaves any other thread's alone.
   */
  lemma OnlyTheSectionOwns(store: Store, es: seq<Event>, t: nat)
    requires store.WellFormed()
    ensures var s := Run(Initial(store), es);
      && (s.owner == Some(t) ==> InSection(s.At(t)) || s.At(t).Leaving?)
      && (s.At(t).Unlocking? || s.At(t).TimerUnlocking? ==> s.owner == Some(t))
      && (s.At(t).Receiving? || s.At(t).Waiting? || s.At(t).TimerWaiting? || s.At(t).Finished? ==>
            s.owner != Some(t))
      && (s.At(t).Leaving? ==>
            var s' := Step(s, Cleanup(t));
            s'.owner == (if s.owner == Some(t) then None else s.owner) && s'.At(t).Finished?)
  {
    assert ThreadOk(Run(Initial(store), es), t);
  }

  /** The append a step makes, if it makes one. */
  function Appended(s: System, e: Event): seq<Delivery> {
    if !e.AppendLine? || !e.ok then []
    else match s.At(e.t)
      case Holding(req, pos) => [Delivery(e.t, pos, req)]
      case TimerHolding(stamp) => [Delivery(e.t, s.store.EndPosition(), WriteLine(stamp))]
      case _ => []
  }

  /** The appends of a run, in the order of its steps. */
  function Delivered(s: System, es: seq<Event>): seq<Delivery>
    requires Inv(s)
  {
    if es == [] then [] else Delivered(s, es[..|es| - 1]) + Appended(Run(s, es[..|es| - 1]), es[|es| - 1])
  }

  lemma StepAppends(s: System, e: Event)
    requires s.store.WellFormed()
    ensures Step(s, e).history == s.history + Appended(s, e)
  {
    assert s.history + [] == s.history;
  }

  /** What the run records as its history is just that. */
  lemma {:induction false} HistoryIsDelivered(store: Store, es: seq<Event>)
    requires store.WellFormed()
    ensures Run(Initial(store), es).history == Delivered(Initial(store), es)
  {
    if es != [] {
      HistoryIsDelivered(store, es[..|es| - 1]);
      StepAppends(Run(Initial(store), es[..|es| - 1]), es[|es| - 1]);
    }
  }

  /** The store is at every point what the appends before it made of the first one, and grows by them. */
  lemma {:induction false} SnapshotIsAPoint(store: Store, es: seq<Event>, n: nat) returns (i: nat)
    requires store.WellFormed() && n <= |Run(Initial(store), es).history|
    ensures i <= |es|
    ensures Run(Initial(store), es[..i]).history == Run(Initial(store), es).history[..n]
    ensures Run(Initial(store), es[..i]).store == Replay(store, Run(Initial(store), es).history[..n])
  {
    var s := Run(Initial(store), es);
    if n == |s.history| {
      assert es[..|es|] == es && s.history[..n] == s.history;
      i := |es|;
    } else {
      var before := es[..|es| - 1];
      var m := Run(Initial(store), before);
      StoreChangesUnderLock(m, es[|es| - 1]);
      assert s.history[..n] == m.history[..n];
      i := SnapshotIsAPoint(store, before, n);
      assert before[..i] == es[..i];
    }
  }

  /**
   * Every response of every run is a piece, and if complete the whole, of the store right after the
   * thread's own append; and the responses come in the order of the appends.
   */
  lemma ResponsesAreOk(store: Store, es: seq<Event>, k: nat)
    requires store.WellFormed() && k < |Run(Initial(store), es).log|
    ensures var s := Run(Initial(store), es);
      RecordOk(store, s.history, s.log[k])
      && forall j | 0 <= j < k :: s.log[j].count <= s.log[k].count && (s.log[k].ok ==> s.log[j].count < s.log[k].count)
  {
    var s := Run(Initial(store), es);
    assert s.log[k] in s.log;
  }

  /**
   * In file mode each complete response of every run is the whole file as it was right after the
   * thread's own append.
   */
  lemma FileResponseIsTheFile(bytes: seq<byte>, es: seq<Event>, k: nat)
    requires var log := Run(Initial(FileStore(bytes)), es).log;
      k < |log| && log[k].complete
    ensures var s := Run(Initial(FileStore(bytes)), es);
      && s.log[k].count <= |s.history|
      && Replay(FileStore(bytes), s.history[..s.log[k].count]) == FileStore(s.log[k].sent)
  {
    ResponsesAreOk(FileStore(bytes), es, k);
    var s := Run(Initial(FileStore(bytes)), es);
    WholeFile(Replay(FileStore(bytes), s.history[..s.log[k].count]));
  }

  /** An interleaving in which t does nothing but read and send, successfully. */
  predicate OnlyReads(es: seq<Event>, t: nat) {
    forall e :: e in es && e.t == t ==> e == ReadSend(t, true, true)
  }

  /** t is answering, after `h`, its own append or the failure of it, or has just sent the whole store. */
  ghost predicate Answering(s: System, t: nat, ok: bool, after: Store, h: seq<Delivery>, start: nat) {
    && s.store == after && s.history == h
    && match s.At(t)
       case Responding(done, count, from, _, _) => done == ok && count == |h| && from == start
       case Unlocking => Response(t, ok, |h|, start, after.Rest(start), true) in s.log
       case _ => false
  }

  lemma AnsweringStarts(s: System, t: nat)
    requires Inv(s) && s.At(t).Holding?
    ensures Inv(Step(s, AppendLine(t, true))) && Inv(Step(s, AppendLine(t, false)))
    ensures var d := Delivery(t, s.At(t).pos, s.At(t).req);
      Answering(Step(s, AppendLine(t, true)), t, true, s.store.Append(d.pos, d.req), s.history + [d],
                s.store.ResponseStart(d.req))
    ensures Answering(Step(s, AppendLine(t, false)), t, false, s.store, s.history, 0)
  {
    StepKeepsInv(s, AppendLine(t, true));
    StepKeepsInv(s, AppendLine(t, false));
  }

  lemma AnsweringGoesOn(s: System, e: Event, t: nat, ok: bool, after: Store, h: seq<Delivery>, start: nat)
    requires Inv(s) && Answering(s, t, ok, after, h, start) && (e.t == t ==> e == ReadSend(t, true, true))
    ensures Answering(Step(s, e), t, ok, after, h, start)
  {
    assert ThreadOk(s, t) && ThreadOk(s, e.t);
    if e.t != t {
      OtherStepLeavesOwner(s, e, t);
    } else if s.At(t).Responding? {
      LoopEnds(s, t);
    }
  }

  lemma {:induction false} AnsweringRun(s: System, es: seq<Event>, t: nat, ok: bool, after: Store,
                                        h: seq<Delivery>, start: nat)
    requires Inv(s) && Answering(s, t, ok, after, h, start) && OnlyReads(es, t)
    ensures Answering(Run(s, es), t, ok, after, h, start)
  {
    if es != [] {
      var before, e := es[..|es| - 1], es[|es| - 1];
      AnsweringRun(s, before, t, ok, after, h, start);
      assert e in es;
      AnsweringGoesOn(Run(s, before), e, t, ok, after, h, start);
    }
  }

  /**
   * Snapshot: however the other threads interleave with the read loop behind t's append, the store
   * stays as the append left it until the loop is over, and t's response is exactly that store; in
   * file mode the whole file.
   */
  lemma SnapshotResponse(s: System, t: nat, es: seq<Event>)
    requires Inv(s) && s.At(t).Holding? && OnlyReads(es, t)
    ensures Inv(Step(s, AppendLine(t, true)))
    ensures var d := Delivery(t, s.At(t).pos, s.At(t).req);
      var after, start, n := s.store.Append(d.pos, d.req), s.store.ResponseStart(d.req), |s.history| + 1;
      var s' := Run(Step(s, AppendLine(t, true)), es);
      && s'.store == after && s'.history == s.history + [d]
      && (if s'.At(t).Responding? then s'.At(t).ok && s'.At(t).count == n && s'.At(t).start == start
          else s'.At(t).Unlocking? && Response(t, true, n, start, after.Rest(start), true) in s'.log)
      && (s'.store.FileStore? && s'.At(t).Unlocking? ==> Response(t, true, n, 0, s'.store.bytes, true) in s'.log)
  {
    var d := Delivery(t, s.At(t).pos, s.At(t).req);
    AnsweringStarts(s, t);
    AnsweringRun(Step(s, AppendLine(t, true)), es, t, true, s.store.Append(d.pos, d.req), s.history + [d],
                 s.store.ResponseStart(d.req));
    WholeFile(s.store.Append(d.pos, d.req));
  }

  lemma WholeFile(s: Store)
    ensures s.FileStore? ==> s.Rest(0) == s.bytes
  {
  }

  /** Behind an append that fails the store is as it was, and the response is all of it. */
  lemma FailedAppendAnswers(s: System, t: nat, es: seq<Event>)
    requires Inv(s) && s.At(t).Holding? && OnlyReads(es, t)
    ensures Inv(Step(s, AppendLine(t, false)))
    ensures var s' := Run(Step(s, AppendLine(t, false)), es);
      && s'.store == s.store && s'.history == s.history
      && (s'.At(t).Responding?
          || (s'.At(t).Unlocking? && Response(t, false, |s.history|, 0, s.store.Rest(0), true) in s'.log))
  {
    AnsweringStarts(s, t);
    AnsweringRun(Step(s, AppendLine(t, false)), es, t, false, s.store, s.history, 0);
  }

  /** The read call that returns nothing ends the loop, and everything has been sent then. */
  lemma LoopEnds(s: System, t: nat)
    requires Inv(s) && s.At(t).Responding?
    ensures var pc, s' := s.At(t), Step(s, ReadSend(t, true, true));
      if s.store.ReadAt(pc.pos) != [] then
        && s'.At(t).Responding?
        && s'.At(t).ok == pc.ok && s'.At(t).count == pc.count && s'.At(t).start == pc.start
      else
        && s'.At(t).Unlocking?
        && Response(t, pc.ok, pc.count, pc.start, s.store.Rest(pc.start), true) in s'.log
  {
    assert LoopOk(s, t);
    ReadAdvances(s.store, s.At(t).pos);
    PrefixOfWhole(s.At(t).sent, s.store.Rest(s.At(t).pos));
  }

  // ---- device mode: the order of the appends explains everything ----

  function Requested(h: seq<Delivery>): seq<Request> {
    seq(|h|, k requires 0 <= k < |h| => h[k].req)
  }

  lemma {:induction false} ReplayOnDevice(dev: Dev, h: seq<Delivery>)
    requires dev.WellFormed()
    ensures Replay(DeviceStore(dev), h) == DeviceStore(AfterAll(dev, Requested(h)))
  {
    if h != [] {
      var before := h[..|h| - 1];
      ReplayOnDevice(dev, before);
      assert Requested(h)[..|h| - 1] == Requested(before);
    }
  }

  /**
   * Serial order: after any interleaving of any number of handlers the device is what the delivered
   * requests make of it one after the other.
   */
  lemma DeviceRunIsSequential(dev: Dev, es: seq<Event>)
    requires dev.WellFormed()
    ensures var s := Run(Initial(DeviceStore(dev)), es);
      s.store == DeviceStore(AfterAll(dev, Requested(s.history)))
  {
    ReplayOnDevice(dev, Run(Initial(DeviceStore(dev)), es).history);
  }

  /**
   * Linearizability of every run in device mode: each complete response whose append succeeded
   * answers one delivered request of its own thread, with exactly the answer the device gives when the
   * delivered requests are made one after the other; and responses come in the order of delivery.
   */
  lemma EveryResponseAnswers(dev: Dev, es: seq<Event>, k: nat)
    requires dev.WellFormed()
    requires var log := Run(Initial(DeviceStore(dev)), es).log;
      k < |log| && log[k].ok && log[k].complete
    ensures var s := Run(Initial(DeviceStore(dev)), es);
      var i := s.log[k].count - 1;
      && 0 <= i < |s.history| && s.history[i].t == s.log[k].t
      && s.log[k].sent == AnswerAt(dev, Requested(s.history), i)
      && forall j | 0 <= j < k :: s.log[j].count - 1 < i
  {
    var s := Run(Initial(DeviceStore(dev)), es);
    ResponsesAreOk(DeviceStore(dev), es, k);
    AnswerOf(dev, s.history, s.log[k].count);
  }

  /** In device mode the store after n appends, from where the n-th response starts, is the answer. */
  lemma AnswerOf(dev: Dev, h: seq<Delivery>, n: nat)
    requires dev.WellFormed() && 0 < n <= |h|
    ensures var start := Replay(DeviceStore(dev), h[..n][..n - 1]).ResponseStart(h[n - 1].req);
      Replay(DeviceStore(dev), h[..n]).Rest(start) == AnswerAt(dev, Requested(h), n - 1)
  {
    ReplayOnDevice(dev, h[..n]);
    ReplayOnDevice(dev, h[..n - 1]);
    assert h[..n][..n - 1] == h[..n - 1];
    assert Requested(h)[..n - 1] == Requested(h[..n - 1]);
    assert Requested(h[..n])[..n - 1] == Requested(h[..n - 1]);
  }

  lemma AnswerFrom(d: Dev, s: System, t: nat, mid: seq<Event>)
    requires Inv(s) && s.store == DeviceStore(d) && s.At(t).Holding? && OnlyReads(mid, t)
    ensures Inv(Step(s, AppendLine(t, true)))
    ensures var req, s' := s.At(t).req, Run(Step(s, AppendLine(t, true)), mid);
      && s'.store == DeviceStore(After(d, req)) && Requested(s'.history) == Requested(s.history) + [req]
      && (s'.At(t).Responding?
          || (s'.At(t).Unlocking?
              && Response(t, true, |s.history| + 1, Position(d, req), Answer(d, req), true) in s'.log))
  {
    var del := Delivery(t, s.At(t).pos, s.At(t).req);
    AnsweringStarts(s, t);
    AnsweringRun(Step(s, AppendLine(t, true)), mid, t, true, DeviceStore(After(d, del.req)), s.history + [del],
                 Position(d, del.req));
    RequestedOneMore(s.history, del);
  }

  lemma RequestedOneMore(h: seq<Delivery>, d: Delivery)
    ensures Requested(h + [d]) == Requested(h) + [d.req]
  {
  }

  /**
   * After any run and then any interleaving with t's read loop, t's loop is still going, or it is over
   * and t's own record is the answer to t's request at its place in the order of delivery.
   */
  lemma LinearizedResponse(dev: Dev, es: seq<Event>, t: nat, mid: seq<Event>)
    requires dev.WellFormed()
    requires Run(Initial(DeviceStore(dev)), es).At(t).Holding? && OnlyReads(mid, t)
    ensures
      var s := Run(Initial(DeviceStore(dev)), es);
      var d, req, n := AfterAll(dev, Requested(s.history)), s.At(t).req, |s.history|;
      && Inv(Step(s, AppendLine(t, true)))
      && var s' := Run(Step(s, AppendLine(t, true)), mid);
        && s'.store == DeviceStore(After(d, req)) && Requested(s'.history) == Requested(s.history) + [req]
        && (s'.At(t).Responding?
            || (s'.At(t).Unlocking? && Response(t, true, n + 1, Position(d, req), Answer(d, req), true) in s'.log))
  {
    var s := Run(Initial(DeviceStore(dev)), es);
    DeviceRunIsSequential(dev, es);
    AnswerFrom(AfterAll(dev, Requested(s.history)), s, t, mid);
  }

  // ---- release ----

  /** The next step of the thread that owns the mutex, when all its calls succeed. */
  function OwnStep(pc: Pc, t: nat): Event {
    if pc.Leaving? then Cleanup(t)
    else if pc.Unlocking? || pc.TimerUnlocking? then Unlock(t)
    else if pc.Responding? then ReadSend(t, true, true)
    else AppendLine(t, true)
  }

  /** The reads of t's response fit its buffer, now or after t's append. */
  ghost predicate CanRespond(s: System, t: nat)
    requires s.store.WellFormed()
  {
    && (s.At(t).Holding? ==>
          s.store.Append(s.At(t).pos, s.At(t).req).ReadsFit(s.store.ResponseStart(s.At(t).req)))
    && (s.At(t).Responding? ==> s.store.ReadsFit(s.At(t).pos))
  }

  lemma NextOwnStep(s: System, t: nat) returns (e: Event)
    requires Inv(s) && s.owner == Some(t) && CanRespond(s, t)
    ensures e.t == t && !e.Cancel? && Inv(Step(s, e)) && CanRespond(Step(s, e), t)
    ensures Step(s, e) != s && Work(s, t) > 0
    ensures Step(s, e).owner == None || (Step(s, e).owner == Some(t) && Work(Step(s, e), t) < Work(s, t))
    ensures s.At(t).Responding? || s.At(t).Unlocking? ==> e.ReadSend? || e.Unlock?
    ensures s.At(t).Responding? ==> Step(s, e).At(t).Responding? || Step(s, e).At(t).Unlocking?
    ensures s.At(t).Unlocking? ==> Step(s, e).owner == None
  {
    assert ThreadOk(s, t);
    e := OwnStep(s.At(t), t);
    OwnerCanStep(s, t);
    OwnerStillResponds(s, t);
    StepKeepsInv(s, e);
    StepUsesWork(s, e, t);
  }

  /** The steps of t in a run that did something. */
  function OwnSteps(s: System, es: seq<Event>, t: nat): nat
    requires Inv(s)
  {
    if es == [] then 0
    else
      var before, e := Run(s, es[..|es| - 1]), es[|es| - 1];
      OwnSteps(s, es[..|es| - 1], t) + if e.t == t && Step(before, e) != before then 1 else 0
  }

  lemma {:induction false} OwnStepsFromStep(s: System, e: Event, es: seq<Event>, t: nat)
    requires Inv(s)
    ensures Inv(Step(s, e))
    ensures OwnSteps(s, [e] + es, t) == OwnSteps(Step(s, e), es, t) + if e.t == t && Step(s, e) != s then 1 else 0
  {
    StepKeepsInv(s, e);
    if es == [] {
      OwnStepsOneMore(s, [], e, t);
      assert [] + [e] == [e] + es;
    } else {
      var before, last := es[..|es| - 1], es[|es| - 1];
      OwnStepsFromStep(s, e, before, t);
      SnocConcat([e], es);
      OwnStepsOneMore(s, [e] + before, last, t);
      OwnStepsOneMore(Step(s, e), before, last, t);
      RunFromStep(s, e, before);
    }
  }

  lemma OwnStepsOneMore(s: System, es: seq<Event>, e: Event, t: nat)
    requires Inv(s)
    ensures var m := Run(s, es);
      OwnSteps(s, es + [e], t) == OwnSteps(s, es, t) + if e.t == t && Step(m, e) != m then 1 else 0
  {
    assert (es + [e])[..|es|] == es;
  }

  /** Left to run on its own and not cancelled, the owner of the mutex gives it back. */
  lemma {:induction false} OwnerReleases(s: System, t: nat) returns (es: seq<Event>)
    requires Inv(s) && s.owner == Some(t) && CanRespond(s, t)
    ensures forall e :: e in es ==> e.t == t && !e.Cancel?
    ensures s.At(t).Responding? || s.At(t).Unlocking? ==> forall e :: e in es ==> e.ReadSend? || e.Unlock?
    ensures Run(s, es).owner == None
    ensures OwnSteps(s, es, t) == |es| <= Work(s, t)
    decreases Work(s, t)
  {
    var e := NextOwnStep(s, t);
    var rest := [];
    if Step(s, e).owner == Some(t) {
      rest := OwnerReleases(Step(s, e), t);
    }
    RunFromStep(s, e, rest);
    OwnStepsFromStep(s, e, rest, t);
    es := [e] + rest;
  }

  /** The owner is never stuck: its next step does something. */
  lemma OwnerCanStep(s: System, t: nat)
    requires Inv(s) && s.owner == Some(t) && CanRespond(s, t)
    ensures OwnStep(s.At(t), t).t == t && Step(s, OwnStep(s.At(t), t)) != s
  {
    assert ThreadOk(s, t);
    if s.At(t).Responding? {
      assert |s.store.ReadAt(s.At(t).pos)| <= READ_SIZE;
      assert Step(s, OwnStep(s.At(t), t)).At(t) != s.At(t);
    }
  }

  lemma OwnerStillResponds(s: System, t: nat)
    requires s.store.WellFormed() && ThreadOk(s, t) && s.owner == Some(t) && CanRespond(s, t)
    ensures Step(s, OwnStep(s.At(t), t)).store.WellFormed() && CanRespond(Step(s, OwnStep(s.At(t), t)), t)
  {
    StepKeepsKind(s, OwnStep(s.At(t), t));
  }

  /** A bound on the steps the owner can still take before it gives the mutex back. */
  function Work(s: System, t: nat): nat
    requires s.store.WellFormed()
  {
    var pc := s.At(t);
    match pc
    case Leaving => 1
    case Unlocking => 2
    case TimerUnlocking => 2
    case TimerHolding(_) => 3
    case Responding(_, _, _, pos, _) => 3 + |s.store.Rest(pos)|
    case Holding(req, pos) =>
      4 + |s.store.Append(pos, req).Rest(s.store.ResponseStart(req))| + |s.store.Rest(0)|
    case _ => 0
  }

  /** No step of another thread adds to the owner's work, and each of its own takes some away. */
  lemma StepUsesWork(s: System, e: Event, t: nat)
    requires Inv(s) && s.owner == Some(t)
    ensures Step(s, e).store.WellFormed() && Work(s, t) > 0
    ensures e.t != t ==> Step(s, e).owner == Some(t) && Work(Step(s, e), t) == Work(s, t)
    ensures e.t == t && Step(s, e) != s ==> Step(s, e).owner == None || 0 < Work(Step(s, e), t) < Work(s, t)
  {
    StepKeepsStore(s, e);
    assert ThreadOk(s, t);
    if e.t == t {
      if Step(s, e) != s { OwnStepTakesWork(s, e); }
    } else {
      OtherStepLeavesOwner(s, e, t);
    }
  }

  lemma OwnStepTakesWork(s: System, e: Event)
    requires s.store.WellFormed() && ThreadOk(s, e.t) && s.owner == Some(e.t) && Step(s, e) != s
    ensures Step(s, e).store.WellFormed()
    ensures Step(s, e).owner == None || 0 < Work(Step(s, e), e.t) < Work(s, e.t)
  {
    StepKeepsKind(s, e);
    if e.ReadSend? {
      if s.At(e.t).Responding? { ReadAdvances(s.store, s.At(e.t).pos); }
    } else if e.AppendLine? {
      AppendTakesWork(s, e.t, e.ok);
    }
  }

  lemma AppendTakesWork(s: System, t: nat, ok: bool)
    requires s.store.WellFormed() && AppendStep(s, t, s.At(t), ok) != s
    ensures var s' := AppendStep(s, t, s.At(t), ok);
      s'.store.WellFormed() ==> 0 < Work(s', t) < Work(s, t)
  {
  }

  /**
   * Release under any interleaving: whatever the other threads do, whatever fails and whenever t is
   * cancelled, by the time t has taken as many steps as it had work it has given the mutex back.
   */
  lemma InterleavedRelease(s: System, t: nat, es: seq<Event>) returns (i: nat)
    requires Inv(s) && s.owner == Some(t) && OwnSteps(s, es, t) >= Work(s, t)
    ensures i <= |es| && Run(s, es[..i]).owner != Some(t)
  {
    i := WorkIsUsed(s, t, es);
    assert es[..|es|] == es;
  }

  /** For a thread about to append: the bytes of its answer, those of the store, and four steps more. */
  lemma HandlerReleases(s: System, t: nat, es: seq<Event>) returns (i: nat)
    requires Inv(s) && s.At(t).Holding?
    requires var after := s.store.Append(s.At(t).pos, s.At(t).req);
      OwnSteps(s, es, t) >= 4 + |after.Rest(s.store.ResponseStart(s.At(t).req))| + |s.store.Rest(0)|
    ensures i <= |es| && Run(s, es[..i]).owner != Some(t)
  {
    assert ThreadOk(s, t);
    i := InterleavedRelease(s, t, es);
  }

  lemma {:induction false} WorkIsUsed(s: System, t: nat, es: seq<Event>) returns (i: nat)
    requires Inv(s) && s.owner == Some(t)
    ensures i <= |es|
    ensures Run(s, es[..i]).owner != Some(t)
            || (i == |es| && Work(Run(s, es), t) + OwnSteps(s, es, t) <= Work(s, t) && Work(Run(s, es), t) > 0)
  {
    if es == [] {
      assert ThreadOk(s, t);
      i := 0;
    } else {
      var before, e := es[..|es| - 1], es[|es| - 1];
      i := WorkIsUsed(s, t, before);
      assert before[..i] == es[..i];
      if Run(s, es[..i]).owner == Some(t) {
        assert before[..i] == before;
        StepUsesWork(Run(s, before), e, t);
        assert es[..|es|] == es;
        i := |es|;
      }
    }
  }

  // ---- conservation in file mode, any number of writers ----

  /** What a step writes to the file. */
  function Written(s: System, e: Event): seq<byte> {
    if !e.AppendLine? || !e.ok then []
    else match s.At(e.t)
      case Holding(req, _) => if req.WriteLine? then req.bytes else []
      case TimerHolding(stamp) => stamp
      case _ => []
  }

  /** No append has come between the seek of this step's handler and its own append. */
  predicate AtEnd(s: System, e: Event) {
    Written(s, e) != [] && s.At(e.t).Holding? ==> s.At(e.t).pos == s.store.EndPosition()
  }

  function AllWritten(s: System, es: seq<Event>): seq<byte>
    requires Inv(s)
  {
    if es == [] then []
    else AllWritten(s, es[..|es| - 1]) + Written(Run(s, es[..|es| - 1]), es[|es| - 1])
  }

  predicate AllAtEnd(s: System, es: seq<Event>)
    requires Inv(s)
  {
    es != [] ==> AllAtEnd(s, es[..|es| - 1]) && AtEnd(Run(s, es[..|es| - 1]), es[|es| - 1])
  }

  lemma StepWrites(s: System, e: Event)
    requires Inv(s) && s.store.FileStore?
    ensures Step(s, e).store.FileStore?
    ensures var was, now := s.store.bytes, Step(s, e).store.bytes;
      && |was| <= |now| <= |was| + |Written(s, e)|
      && (now == was + Written(s, e) <==> AtEnd(s, e))
      && (|now| == |was| + |Written(s, e)| ==> AtEnd(s, e))
  {
    assert ThreadOk(s, e.t);
    var was, w := s.store.bytes, Written(s, e);
    assert was + [] == was;
    if w != [] {
      WriteAppendsIff(was, if s.At(e.t).Holding? then s.At(e.t).pos else |was|, w);
    } else if e.AppendLine? && s.At(e.t).Holding? {
      assert WriteAt(was, s.At(e.t).pos, []) == was;
    } else if e.AppendLine? && s.At(e.t).TimerHolding? {
      assert WriteAt(was, |was|, []) == was;
    }
  }

  lemma {:induction false} FileLength(s: System, es: seq<Event>)
    requires Inv(s) && s.store.FileStore?
    ensures Run(s, es).store.FileStore?
    ensures var was, now, w := s.store.bytes, Run(s, es).store.bytes, AllWritten(s, es);
      && |was| <= |now| <= |was| + |w|
      && (|now| == |was| + |w| ==> AllAtEnd(s, es))
      && (AllAtEnd(s, es) ==> now == was + w)
  {
    if es == [] {
      assert s.store.bytes + [] == s.store.bytes;
    } else {
      var before, e := es[..|es| - 1], es[|es| - 1];
      FileLength(s, before);
      StepWrites(Run(s, before), e);
      Assoc(s.store.bytes, AllWritten(s, before), Written(Run(s, before), e));
    }
  }

  /** The thread has sought the end of the file, and has not appended yet. */
  predicate HasSought(pc: Pc) {
    pc.Waiting? || pc.Holding?
  }

  /** Since t sought the end of the file, and before its own append, some step has written something. */
  predicate Overtaken(s: System, es: seq<Event>, t: nat)
    requires Inv(s)
  {
    es != []
    && var before, e := es[..|es| - 1], es[|es| - 1];
       && HasSought(Run(s, before).At(t)) && HasSought(Run(s, es).At(t))
       && (Overtaken(s, before, t) || Written(Run(s, before), e) != [])
  }

  /** The k-th step writes the line of a handler that has been overtaken. */
  predicate LateWrite(s: System, es: seq<Event>, k: nat)
    requires Inv(s) && k < |es|
  {
    var m, t := Run(s, es[..k]), es[k].t;
    Written(m, es[k]) != [] && m.At(t).Holding? && Overtaken(s, es[..k], t)
  }

  /** Over one step a thread keeps the position it has sought, or has just sought the end. */
  lemma SoughtStep(s: System, e: Event, t: nat)
    requires Inv(s) && s.store.FileStore? && AtEnd(s, e) && HasSought(Step(s, e).At(t))
    ensures Step(s, e).store.FileStore?
    ensures var end, end' := s.store.EndPosition(), Step(s, e).store.EndPosition();
      && end' == end + |Written(s, e)|
      && if HasSought(s.At(t)) then Step(s, e).At(t).pos == s.At(t).pos <= end
         else Step(s, e).At(t).pos == end' && Written(s, e) == []
  {
    StepWrites(s, e);
    assert ThreadOk(s, t);
  }

  /** As long as every append was at the end, a position is still the end exactly if nothing came between. */
  lemma {:induction false} PositionTells(bytes: seq<byte>, es: seq<Event>, t: nat)
    requires AllAtEnd(Initial(FileStore(bytes)), es)
    requires HasSought(Run(Initial(FileStore(bytes)), es).At(t))
    ensures var s := Initial(FileStore(bytes));
      Run(s, es).At(t).pos == Run(s, es).store.EndPosition() <==> !Overtaken(s, es, t)
  {
    var s := Initial(FileStore(bytes));
    if es != [] {
      var before, e := es[..|es| - 1], es[|es| - 1];
      FileLength(s, before);
      SoughtStep(Run(s, before), e, t);
      if HasSought(Run(s, before).At(t)) { PositionTells(bytes, before, t); }
    }
  }

  lemma LateWriteStays(s: System, es: seq<Event>, k: nat)
    requires Inv(s) && k < |es| - 1
    ensures LateWrite(s, es[..|es| - 1], k) == LateWrite(s, es, k)
  {
    assert es[..|es| - 1][..k] == es[..k];
  }

  lemma LastWrite(bytes: seq<byte>, es: seq<Event>)
    requires es != [] && AllAtEnd(Initial(FileStore(bytes)), es[..|es| - 1])
    ensures var s := Initial(FileStore(bytes));
      AllAtEnd(s, es) <==> !LateWrite(s, es, |es| - 1)
  {
    var s, before, t := Initial(FileStore(bytes)), es[..|es| - 1], es[|es| - 1].t;
    if Run(s, before).At(t).Holding? { PositionTells(bytes, before, t); }
  }

  lemma {:induction false} AtEndIsNotLate(bytes: seq<byte>, es: seq<Event>, k: nat)
    requires k < |es| && AllAtEnd(Initial(FileStore(bytes)), es)
    ensures !LateWrite(Initial(FileStore(bytes)), es, k)
  {
    if k < |es| - 1 {
      AtEndIsNotLate(bytes, es[..|es| - 1], k);
      LateWriteStays(Initial(FileStore(bytes)), es, k);
    } else {
      LastWrite(bytes, es);
    }
  }

  lemma {:induction false} FindLateWrite(bytes: seq<byte>, es: seq<Event>) returns (k: nat)
    requires !AllAtEnd(Initial(FileStore(bytes)), es)
    ensures k < |es| && LateWrite(Initial(FileStore(bytes)), es, k)
  {
    if AllAtEnd(Initial(FileStore(bytes)), es[..|es| - 1]) {
      LastWrite(bytes, es);
      k := |es| - 1;
    } else {
      k := FindLateWrite(bytes, es[..|es| - 1]);
      LateWriteStays(Initial(FileStore(bytes)), es, k);
    }
  }

  /**
   * The file ends as its old contents and everything written to it, in order, exactly if no handler
   * wrote a line after some other step had written between its seek and that write.
   */
  lemma FileKeepsEverythingIff(bytes: seq<byte>, es: seq<Event>)
    ensures var s := Initial(FileStore(bytes));
      Run(s, es).store == FileStore(bytes + AllWritten(s, es))
      <==> forall k | 0 <= k < |es| :: !LateWrite(s, es, k)
  {
    var s := Initial(FileStore(bytes));
    FileLength(s, es);
    if AllAtEnd(s, es) {
      forall k | 0 <= k < |es| ensures !LateWrite(s, es, k) {
        AtEndIsNotLate(bytes, es, k);
      }
    } else {
      var k := FindLateWrite(bytes, es);
    }
  }

  /** The timer seeks under the lock, so what it writes is always appended. */
  lemma TimerAlwaysAppends(s: System, t: nat)
    requires Inv(s) && s.store.FileStore? && s.At(t).TimerHolding?
    ensures Step(s, AppendLine(t, true)).store == FileStore(s.store.bytes + s.At(t).stamp)
  {
    StepWrites(s, AppendLine(t, true));
  }

  lemma RunTwo(s: System, e: Event, f: Event)
    requires Inv(s)
    ensures Inv(Step(s, e)) && Run(s, [e, f]) == Step(Step(s, e), f)
  {
    RunFromStep(s, e, [f]);
    assert [e] + [f] == [e, f] && [] + [f] == [f];
    RunOneMore(Step(s, e), [], f);
  }

  lemma TakesLock(s: System, t: nat)
    requires s.store.WellFormed() && s.owner == None && s.At(t).Waiting?
    ensures Step(s, Lock(t)) == s.(owner := Some(t)).Move(t, Holding(s.At(t).req, s.At(t).pos))
  {
  }

  lemma AppendsToFile(s: System, t: nat)
    requires s.store.FileStore? && s.At(t).Holding? && s.At(t).req.WriteLine?
    ensures var s' := Step(s, AppendLine(t, true));
      && s'.store == FileStore(Overwrite(s.store.bytes, s.At(t).pos, s.At(t).req.bytes))
      && s'.owner == s.owner && s'.At(t).Responding?
      && forall u: nat | u != t :: s'.At(u) == s.At(u)
  {
  }

  /** A handler that waits for the free mutex takes it and appends at the position it sought before. */
  lemma LockAndAppend(s: System, t: nat)
    requires Inv(s) && s.store.FileStore? && s.owner == None && s.At(t).Waiting? && s.At(t).req.WriteLine?
    ensures var s' := Run(s, [Lock(t), AppendLine(t, true)]);
      && s'.store == FileStore(Overwrite(s.store.bytes, s.At(t).pos, s.At(t).req.bytes))
      && s'.owner == Some(t) && s'.At(t).Responding?
      && forall u: nat | u != t :: s'.At(u) == s.At(u)
  {
    TakesLock(s, t);
    AppendsToFile(Step(s, Lock(t)), t);
    RunTwo(s, Lock(t), AppendLine(t, true));
  }

  /** The steps of t alone leave every other thread where it was, and behind the append the store too. */
  lemma OwnStepIsLocal(s: System, e: Event)
    requires s.store.WellFormed() && (e.ReadSend? || e.Unlock?)
    ensures Step(s, e).store == s.store && forall u: nat | u != e.t :: Step(s, e).At(u) == s.At(u)
  {
  }

  lemma {:induction false} OwnStepsAreLocal(s: System, t: nat, es: seq<Event>)
    requires Inv(s) && forall e :: e in es ==> e.t == t && (e.ReadSend? || e.Unlock?)
    ensures Run(s, es).store == s.store && forall u: nat | u != t :: Run(s, es).At(u) == s.At(u)
  {
    if es != [] {
      var before, e := es[..|es| - 1], es[|es| - 1];
      OwnStepsAreLocal(s, t, before);
      assert e in es;
      OwnStepIsLocal(Run(s, before), e);
    }
  }

  /** Left alone, such a handler appends, responds and gives the mutex back. */
  lemma WriteAlone(s: System, t: nat) returns (es: seq<Event>)
    requires Inv(s) && s.store.FileStore? && s.owner == None && s.At(t).Waiting? && s.At(t).req.WriteLine?
    ensures var s' := Run(s, es);
      && s'.store == FileStore(Overwrite(s.store.bytes, s.At(t).pos, s.At(t).req.bytes))
      && s'.owner == None && forall u: nat | u != t :: s'.At(u) == s.At(u)
  {
    LockAndAppend(s, t);
    var s' := Run(s, [Lock(t), AppendLine(t, true)]);
    var rest := OwnerReleases(s', t);
    OwnStepsAreLocal(s', t, rest);
    RunConcat(s, [Lock(t), AppendLine(t, true)], rest);
    es := [Lock(t), AppendLine(t, true)] + rest;
  }

  /**
   * Two handlers that seek to the end of the file before either locks: of the line of the one that
   * locks first only what sticks out behind the other's is left.
   */
  lemma LateWriterOverwrites(s: System, t: nat, u: nat, a: seq<byte>, b: seq<byte>) returns (es: seq<Event>)
    requires Inv(s) && s.store.FileStore? && s.owner == None && t != u
    requires s.At(t) == Waiting(WriteLine(a), |s.store.bytes|)
    requires s.At(u) == Waiting(WriteLine(b), |s.store.bytes|)
    ensures Run(s, es).store == FileStore(s.store.bytes + b + if |b| < |a| then a[|b|..] else [])
  {
    var bytes := s.store.bytes;
    var first := WriteAlone(s, t);
    assert Overwrite(bytes, |bytes|, a) == bytes + a;
    var second := WriteAlone(Run(s, first), u);
    WriteAtBytes(bytes + a, |bytes|, b);
    assert Overwrite(bytes + a, |bytes|, b) == bytes + b + if |b| < |a| then a[|b|..] else [];
    RunConcat(s, first, second);
    es := first + second;
  }

  /** A new connection that receives a complete line, with nothing else going on. */
  lemma Connects(s: System, es: seq<Event>, t: nat, line: seq<byte>) returns (es': seq<Event>)
    requires Inv(s) && t !in Run(s, es).threads && Run(s, es).store.FileStore?
    ensures var was, now := Run(s, es), Run(s, es');
      && now.owner == was.owner && now.store == was.store
      && now.At(t) == Waiting(WriteLine(line), |was.store.bytes|)
      && now.threads.Keys == was.threads.Keys + {t}
      && forall u: nat | u != t :: now.At(u) == was.At(u)
  {
    es' := es + [Accept(t)] + [Receive(t, WriteLine(line))];
    RunOneMore(s, es, Accept(t));
    RunOneMore(s, es + [Accept(t)], Receive(t, WriteLine(line)));
  }

  /** Two connections, each with a complete line in hand, can meet before the lock. */
  lemma TwoWritersCanMeet(bytes: seq<byte>, a: seq<byte>, b: seq<byte>) returns (es: seq<Event>)
    ensures var s := Run(Initial(FileStore(bytes)), es);
      && s.owner == None && s.store == FileStore(bytes)
      && s.At(1) == Waiting(WriteLine(a), |bytes|) && s.At(2) == Waiting(WriteLine(b), |bytes|)
  {
    es := Connects(Initial(FileStore(bytes)), [], 1, a);
    es := Connects(Initial(FileStore(bytes)), es, 2, b);
  }
}
