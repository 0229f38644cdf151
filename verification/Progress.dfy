/** What the threads get done: runs in which lines are delivered and answered, and every way out of the loop. */
module Progress {
  import opened Bytes
  import opened DataFileModel
  import opened DeviceModel
  import opened Handlers
  import opened LockProtocol

  // ---- single steps ----

  lemma ReceivesLine(s: System, t: nat, req: Request)
    requires s.store.WellFormed() && s.At(t).Receiving? && (s.store.FileStore? ==> req.WriteLine?)
    ensures Step(s, Receive(t, req)) == s.Move(t, Waiting(req, s.store.EndPosition()))
  {
  }

  lemma Unlocks(s: System, t: nat)
    requires s.store.WellFormed() && s.At(t).Unlocking? && s.owner == Some(t)
    ensures Step(s, Unlock(t)) == s.(owner := None).Move(t, Receiving)
  {
  }

  lemma ReadsOn(s: System, t: nat)
    requires Inv(s) && s.At(t).Responding? && s.store.ReadsFit(s.At(t).pos)
    ensures var s' := Step(s, ReadSend(t, true, true));
      && s'.store == s.store && s'.owner == s.owner
      && if s.store.ReadAt(s.At(t).pos) == [] then s'.At(t).Unlocking?
         else s'.At(t).Responding? && s'.At(t).pos == s.At(t).pos + |s.store.ReadAt(s.At(t).pos)|
  {
    assert |s.store.ReadAt(s.At(t).pos)| <= READ_SIZE;
  }

  /** The read loop, on its own and with every call succeeding. */
  lemma {:induction false} ReadsToEnd(s: System, t: nat) returns (es: seq<Event>)
    requires Inv(s) && s.At(t).Responding? && s.store.ReadsFit(s.At(t).pos)
    ensures forall e :: e in es ==> e == ReadSend(t, true, true)
    ensures Run(s, es).At(t).Unlocking?
    decreases |s.store.Rest(s.At(t).pos)|
  {
    var e := ReadSend(t, true, true);
    ReadsOn(s, t);
    ReadAdvances(s.store, s.At(t).pos);
    StepKeepsInv(s, e);
    var rest := [];
    if Step(s, e).At(t).Responding? {
      rest := ReadsToEnd(Step(s, e), t);
    }
    RunFromStep(s, e, rest);
    es := [e] + rest;
  }

  lemma LogGrows(s: System, e: Event)
    requires s.store.WellFormed()
    ensures forall r :: r in s.log ==> r in Step(s, e).log
  {
  }

  lemma {:induction false} LogStays(s: System, es: seq<Event>)
    requires Inv(s)
    ensures forall r :: r in s.log ==> r in Run(s, es).log
  {
    if es != [] {
      LogStays(s, es[..|es| - 1]);
      LogGrows(Run(s, es[..|es| - 1]), es[|es| - 1]);
    }
  }

  // ---- one line ----

  /** t is back in recv, the mutex is free, its request has been made and answered. */
  ghost predicate Served(s: System, s': System, t: nat, req: Request)
    requires s.store.WellFormed()
  {
    var after, start := s.store.Append(s.store.EndPosition(), req), s.store.ResponseStart(req);
    && s'.owner == None && s'.At(t).Receiving?
    && s'.store == after && s'.history == s.history + [Delivery(t, s.store.EndPosition(), req)]
    && Response(t, true, |s.history| + 1, start, after.Rest(start), true) in s'.log
    && (forall r :: r in s.log ==> r in s'.log)
    && (forall u: nat | u != t :: s'.At(u) == s.At(u))
  }

  /** The line is complete, and t gets the mutex. */
  lemma TakesLine(s: System, t: nat, req: Request)
    requires Inv(s) && s.owner == None && s.At(t).Receiving? && (s.store.FileStore? ==> req.WriteLine?)
    ensures var end := s.store.EndPosition();
      Run(s, [Receive(t, req), Lock(t)])
      == s.Move(t, Waiting(req, end)).(owner := Some(t)).Move(t, Holding(req, end))
  {
    ReceivesLine(s, t, req);
    TakesLock(Step(s, Receive(t, req)), t);
    RunTwo(s, Receive(t, req), Lock(t));
  }

  /** Append, response and unlock. */
  lemma AppendsAndAnswers(s: System, t: nat) returns (es: seq<Event>)
    requires Inv(s) && s.At(t).Holding?
    requires s.store.Append(s.At(t).pos, s.At(t).req).ReadsFit(s.store.ResponseStart(s.At(t).req))
    ensures var d := Delivery(t, s.At(t).pos, s.At(t).req);
      var after, start, s' := s.store.Append(d.pos, d.req), s.store.ResponseStart(d.req), Run(s, es);
      && s'.owner == None && s'.At(t).Receiving?
      && s'.store == after && s'.history == s.history + [d]
      && Response(t, true, |s.history| + 1, start, after.Rest(start), true) in s'.log
      && (forall u: nat | u != t :: s'.At(u) == s.At(u))
  {
    var d := Delivery(t, s.At(t).pos, s.At(t).req);
    var after, start, h := s.store.Append(d.pos, d.req), s.store.ResponseStart(d.req), s.history + [d];
    AnsweringStarts(s, t);
    AppendStarts(s, t);
    var s1 := Step(s, AppendLine(t, true));
    var readLoop := ReadsToEnd(s1, t);
    AnsweringRun(s1, readLoop, t, true, after, h, start);
    OwnStepsAreLocal(s1, t, readLoop);
    UnlocksAfter(s1, t, readLoop);
    RunFromStep(s, AppendLine(t, true), readLoop + [Unlock(t)]);
    es := [AppendLine(t, true)] + (readLoop + [Unlock(t)]);
  }

  lemma AppendStarts(s: System, t: nat)
    requires s.store.WellFormed() && s.At(t).Holding?
    ensures var s' := Step(s, AppendLine(t, true));
      && s'.At(t).Responding? && s'.At(t).pos == s.store.ResponseStart(s.At(t).req)
      && s'.store == s.store.Append(s.At(t).pos, s.At(t).req)
      && forall u: nat | u != t :: s'.At(u) == s.At(u)
  {
  }

  lemma UnlocksAfter(s: System, t: nat, es: seq<Event>)
    requires Inv(s) && Run(s, es).At(t).Unlocking?
    ensures Run(s, es + [Unlock(t)]) == Run(s, es).(owner := None).Move(t, Receiving)
  {
    assert ThreadOk(Run(s, es), t);
    Unlocks(Run(s, es), t);
    RunOneMore(s, es, Unlock(t));
  }

  /** A handler that receives a line while the mutex is free can deliver it, answer it, and go on receiving. */
  lemma ServeOne(s: System, t: nat, req: Request) returns (es: seq<Event>)
    requires Inv(s) && s.owner == None && s.At(t).Receiving? && (s.store.FileStore? ==> req.WriteLine?)
    requires s.store.Append(s.store.EndPosition(), req).ReadsFit(s.store.ResponseStart(req))
    ensures Served(s, Run(s, es), t, req)
  {
    TakesLine(s, t, req);
    var first := [Receive(t, req), Lock(t)];
    var rest := AppendsAndAnswers(Run(s, first), t);
    RunConcat(s, first, rest);
    es := first + rest;
    LogStays(s, es);
  }

  lemma Accepts(store: Store, t: nat)
    requires store.WellFormed()
    ensures var s := Run(Initial(store), [Accept(t)]);
      && s.owner == None && s.At(t).Receiving? && s.store == store && s.history == []
  {
    RunOneMore(Initial(store), [], Accept(t));
    assert [] + [Accept(t)] == [Accept(t)];
  }

  // ---- a list of requests on the device ----

  /** After n requests of thread t alone: all delivered and answered, and t ready for the next. */
  ghost predicate AllServed(dev: Dev, s: System, t: nat, reqs: seq<Request>, n: nat)
    requires dev.ring.WellFormed() && n <= |reqs|
  {
    && s.owner == None && s.At(t).Receiving? && s.store == DeviceStore(AfterAll(dev, reqs[..n]))
    && s.history == seq(n, k requires 0 <= k < n => Delivery(t, 0, reqs[k]))
    && forall k: nat | k < n :: HasAnswer(dev, s.log, t, reqs, k)
  }

  /** The record of a complete response of t to the k-th request. */
  predicate IsAnswer(dev: Dev, r: Response, t: nat, reqs: seq<Request>, k: nat)
    requires dev.ring.WellFormed() && k < |reqs|
  {
    r.t == t && r.ok && r.complete && r.count == k + 1 && r.sent == AnswerAt(dev, reqs, k)
  }

  ghost predicate HasAnswer(dev: Dev, log: seq<Response>, t: nat, reqs: seq<Request>, k: nat)
    requires dev.ring.WellFormed() && k < |reqs|
  {
    exists r :: r in log && IsAnswer(dev, r, t, reqs, k)
  }

  lemma OneMoreServed(dev: Dev, s: System, s': System, t: nat, reqs: seq<Request>, n: nat)
    requires dev.WellFormed() && n < |reqs| && s.store.WellFormed()
    requires AllServed(dev, s, t, reqs, n) && Served(s, s', t, reqs[n])
    ensures AllServed(dev, s', t, reqs, n + 1)
  {
    var d := AfterAll(dev, reqs[..n]);
    assert reqs[..n + 1][..n] == reqs[..n];
    var last := Response(t, true, n + 1, Position(d, reqs[n]), Answer(d, reqs[n]), true);
    assert IsAnswer(dev, last, t, reqs, n) && last in s'.log;
    forall k: nat | k < n + 1 ensures HasAnswer(dev, s'.log, t, reqs, k) {
      if k < n {
        assert HasAnswer(dev, s.log, t, reqs, k);
        var r :| r in s.log && IsAnswer(dev, r, t, reqs, k);
        assert r in s'.log;
      }
    }
  }

  lemma {:induction false} ServeRequests(dev: Dev, t: nat, reqs: seq<Request>, n: nat) returns (es: seq<Event>)
    requires dev.WellFormed() && n <= |reqs|
    requires forall k | 0 <= k < |reqs| :: AnswerFits(AfterAll(dev, reqs[..k]), reqs[k], READ_SIZE)
    ensures AllServed(dev, Run(Initial(DeviceStore(dev)), es), t, reqs, n)
  {
    var s0 := Initial(DeviceStore(dev));
    if n == 0 {
      Accepts(DeviceStore(dev), t);
      es := [Accept(t)];
    } else {
      var before := ServeRequests(dev, t, reqs, n - 1);
      assert AnswerFits(AfterAll(dev, reqs[..n - 1]), reqs[n - 1], READ_SIZE);
      var more := ServeOne(Run(s0, before), t, reqs[n - 1]);
      OneMoreServed(dev, Run(s0, before), Run(Run(s0, before), more), t, reqs, n - 1);
      RunConcat(s0, before, more);
      es := before + more;
    }
  }

  lemma {:induction false} DeliveredAll(h: seq<Delivery>, t: nat)
    requires forall d :: d in h ==> d.t == t
    ensures DeliveredBy(h, t) == Requested(h)
  {
    if h != [] {
      assert h[|h| - 1] in h;
      DeliveredAll(h[..|h| - 1], t);
      assert Requested(h) == Requested(h[..|h| - 1]) + [h[|h| - 1].req];
    }
  }

  /**
   * Delivery: any list of requests whose answers fit the response buffer can be made by one thread on any
   * device. Some run takes it from being accepted through all of them: it has delivered just these, in
   * order, has answered each completely, and is back in recv with the mutex free.
   */
  lemma DeliveryHappens(dev: Dev, t: nat, reqs: seq<Request>) returns (es: seq<Event>)
    requires dev.WellFormed()
    requires forall k | 0 <= k < |reqs| :: AnswerFits(AfterAll(dev, reqs[..k]), reqs[k], READ_SIZE)
    ensures var s := Run(Initial(DeviceStore(dev)), es);
      && s.At(t).Receiving? && s.owner == None && s.store == DeviceStore(AfterAll(dev, reqs))
      && DeliveredBy(s.history, t) == reqs && Requested(s.history) == reqs
      && forall k: nat | k < |reqs| :: HasAnswer(dev, s.log, t, reqs, k)
  {
    es := ServeRequests(dev, t, reqs, |reqs|);
    AllDelivered(dev, Run(Initial(DeviceStore(dev)), es), t, reqs);
  }

  lemma AllDelivered(dev: Dev, s: System, t: nat, reqs: seq<Request>)
    requires dev.ring.WellFormed() && AllServed(dev, s, t, reqs, |reqs|)
    ensures s.store == DeviceStore(AfterAll(dev, reqs))
    ensures Requested(s.history) == reqs && DeliveredBy(s.history, t) == reqs
  {
    assert reqs[..|reqs|] == reqs;
    assert Requested(s.history) == reqs;
    DeliveredAll(s.history, t);
  }

  // ---- a list of lines in the file ----

  /** After the first n lines: the file, and a complete response to each with the file up to it. */
  ghost predicate AllAppended(bytes: seq<byte>, s: System, t: nat, lines: seq<seq<byte>>, n: nat)
    requires n <= |lines|
  {
    && s.owner == None && s.At(t).Receiving? && s.store == FileStore(bytes + Flatten(lines[..n]))
    && |s.history| == n
    && forall k: nat | k < n :: HasFileAnswer(bytes, s.log, t, lines, k)
  }

  predicate IsFileAnswer(bytes: seq<byte>, r: Response, t: nat, lines: seq<seq<byte>>, k: nat)
    requires k < |lines|
  {
    r.t == t && r.ok && r.complete && r.count == k + 1 && r.sent == bytes + Flatten(lines[..k + 1])
  }

  ghost predicate HasFileAnswer(bytes: seq<byte>, log: seq<Response>, t: nat, lines: seq<seq<byte>>, k: nat)
    requires k < |lines|
  {
    exists r :: r in log && IsFileAnswer(bytes, r, t, lines, k)
  }

  lemma OneMoreAppended(bytes: seq<byte>, s: System, s': System, t: nat, lines: seq<seq<byte>>, n: nat)
    requires n < |lines| && s.store.WellFormed()
    requires AllAppended(bytes, s, t, lines, n) && Served(s, s', t, WriteLine(lines[n]))
    ensures AllAppended(bytes, s', t, lines, n + 1)
  {
    AppendedAtEnd(bytes, lines, n);
    var last := Response(t, true, n + 1, 0, bytes + Flatten(lines[..n + 1]), true);
    assert IsFileAnswer(bytes, last, t, lines, n) && last in s'.log;
    forall k: nat | k < n + 1 ensures HasFileAnswer(bytes, s'.log, t, lines, k) {
      if k < n {
        assert HasFileAnswer(bytes, s.log, t, lines, k);
        var r :| r in s.log && IsFileAnswer(bytes, r, t, lines, k);
        assert r in s'.log;
      }
    }
  }

  lemma AppendedAtEnd(bytes: seq<byte>, lines: seq<seq<byte>>, n: nat)
    requires n < |lines|
    ensures var was := bytes + Flatten(lines[..n]);
      Overwrite(was, |was|, lines[n]) == bytes + Flatten(lines[..n + 1])
  {
    var was := bytes + Flatten(lines[..n]);
    assert lines[..n + 1] == lines[..n] + [lines[n]];
    FlattenConcat(lines[..n], [lines[n]]);
    FlattenOne(lines[n]);
    Assoc(bytes, Flatten(lines[..n]), lines[n]);
    WriteAtBytes(was, |was|, lines[n]);
    assert Overwrite(was, |was|, lines[n]) == was + lines[n];
  }

  /** The same in file mode, for any lines: each is appended and answered with the whole file. */
  lemma {:induction false} FileDeliveryHappens(bytes: seq<byte>, t: nat, lines: seq<seq<byte>>, n: nat)
    returns (es: seq<Event>)
    requires n <= |lines|
    ensures AllAppended(bytes, Run(Initial(FileStore(bytes)), es), t, lines, n)
  {
    var s0 := Initial(FileStore(bytes));
    if n == 0 {
      Accepts(FileStore(bytes), t);
      assert lines[..0] == [] && bytes + [] == bytes;
      es := [Accept(t)];
    } else {
      var before := FileDeliveryHappens(bytes, t, lines, n - 1);
      var more := ServeOne(Run(s0, before), t, WriteLine(lines[n - 1]));
      OneMoreAppended(bytes, Run(s0, before), Run(Run(s0, before), more), t, lines, n - 1);
      RunConcat(s0, before, more);
      es := before + more;
    }
  }

  // ---- the timer ----

  lemma TimerSteps(s: System, t: nat, stamp: seq<byte>, ok: bool)
    requires s.store.FileStore? && s.owner == None && t !in s.threads
    ensures var s1 := Step(s, Fire(t, stamp));
      && s1 == s.Move(t, TimerWaiting(stamp))
      && Step(s1, Lock(t)) == s1.(owner := Some(t)).Move(t, TimerHolding(stamp))
  {
  }

  lemma TimerAppends(s: System, t: nat, ok: bool)
    requires s.store.FileStore? && s.owner == Some(t) && s.At(t).TimerHolding?
    ensures var s' := Step(s, AppendLine(t, ok));
      && s'.store == FileStore(s.store.bytes + if ok then s.At(t).stamp else [])
      && s'.owner == Some(t) && s'.At(t).TimerUnlocking?
      && Step(s', Unlock(t)) == s'.(owner := None).Move(t, Finished)
  {
    WriteAtBytes(s.store.bytes, |s.store.bytes|, s.At(t).stamp);
    assert WriteAt(s.store.bytes, |s.store.bytes|, s.At(t).stamp) == s.store.bytes + s.At(t).stamp;
    assert s.store.bytes + [] == s.store.bytes;
  }

  /** A timer that fires while the mutex is free appends its stamp, and is gone with the mutex free again. */
  lemma TimerRuns(s: System, t: nat, stamp: seq<byte>, ok: bool)
    requires Inv(s) && s.store.FileStore? && s.owner == None && t !in s.threads
    ensures var s' := Run(s, [Fire(t, stamp), Lock(t)] + [AppendLine(t, ok), Unlock(t)]);
      && s'.store == FileStore(s.store.bytes + if ok then stamp else [])
      && s'.owner == None && s'.At(t).Finished?
  {
    TimerSteps(s, t, stamp, ok);
    RunTwo(s, Fire(t, stamp), Lock(t));
    var m := Run(s, [Fire(t, stamp), Lock(t)]);
    TimerAppends(m, t, ok);
    RunTwo(m, AppendLine(t, ok), Unlock(t));
    RunConcat(s, [Fire(t, stamp), Lock(t)], [AppendLine(t, ok), Unlock(t)]);
  }

  /** A timer whose lock fails is gone at once. */
  lemma TimerGivesUp(s: System, t: nat)
    requires Inv(s) && s.At(t).TimerWaiting?
    ensures var s' := Step(s, LockFails(t));
      s'.At(t).Finished? && s'.owner == s.owner && s'.store == s.store
  {
  }

  // ---- ways out ----

  /** The client hangs up, the lock or a send fails, or the thread is cancelled. */
  predicate LeavesBy(s: System, e: Event) {
    var pc := s.At(e.t);
    match e
    case Hangup(_) => pc.Receiving?
    case LockFails(_) => pc.Waiting?
    case ReadSend(_, readOk, sendOk) =>
      pc.Responding? && readOk && !sendOk && 0 < |s.store.ReadAt(pc.pos)| <= READ_SIZE
    case Cancel(_) => !IsTimer(pc) && !pc.Finished?
    case _ => false
  }

  lemma LeavingStep(s: System, e: Event)
    requires s.store.WellFormed() && LeavesBy(s, e)
    ensures var s' := Step(s, e);
      && s'.At(e.t).Leaving? && s'.owner == s.owner && s'.store == s.store && s'.history == s.history
      && (s.At(e.t).Responding? ==>
            && s'.log == s.log + [s'.log[|s.log|]] && s'.log[|s.log|].t == e.t
            && s'.log[|s.log|].sent == s.At(e.t).sent && !s'.log[|s.log|].complete)
      && forall u: nat | u != e.t :: s'.At(u) == s.At(u)
  {
  }

  lemma CleanupStep(s: System, t: nat)
    requires s.store.WellFormed() && s.At(t).Leaving?
    ensures Step(s, Cleanup(t)) == s.(owner := if s.owner == Some(t) then None else s.owner).Move(t, Finished)
  {
  }

  /**
   * However the loop is left, the cleanup handler ends the thread and frees the mutex if it was the
   * thread's; store and other threads stay as they are, and a response cut off is on record as that.
   */
  lemma EveryWayOut(s: System, e: Event)
    requires Inv(s) && LeavesBy(s, e)
    ensures var s' := Run(s, [e, Cleanup(e.t)]);
      && s'.At(e.t).Finished? && s'.owner == (if s.owner == Some(e.t) then None else s.owner)
      && s'.store == s.store && s'.history == s.history
      && (s.At(e.t).Responding? ==> s'.log != [] && s'.log[|s'.log| - 1].t == e.t && !s'.log[|s'.log| - 1].complete)
      && forall u: nat | u != e.t :: s'.At(u) == s.At(u)
  {
    LeavingStep(s, e);
    CleanupStep(Step(s, e), e.t);
    RunTwo(s, e, Cleanup(e.t));
  }

  /** A failed read ends the response like the end of the data does: the thread unlocks and goes on. */
  lemma FailedReadGoesOn(s: System, t: nat, sendOk: bool)
    requires Inv(s) && s.At(t).Responding?
    ensures var s' := Run(s, [ReadSend(t, false, sendOk), Unlock(t)]);
      && s'.At(t).Receiving? && s'.owner == None && s'.store == s.store
      && |s'.log| == |s.log| + 1 && s'.log[|s.log|].sent == s.At(t).sent && !s'.log[|s.log|].complete
  {
    FailedRead(s, t, sendOk);
    assert ThreadOk(s, t);
    Unlocks(Step(s, ReadSend(t, false, sendOk)), t);
    RunTwo(s, ReadSend(t, false, sendOk), Unlock(t));
  }

  lemma FailedRead(s: System, t: nat, sendOk: bool)
    requires s.store.WellFormed() && s.At(t).Responding?
    ensures var s' := Step(s, ReadSend(t, false, sendOk));
      && s'.At(t).Unlocking? && s'.owner == s.owner && s'.store == s.store
      && |s'.log| == |s.log| + 1 && s'.log[|s.log|].sent == s.At(t).sent && !s'.log[|s.log|].complete
  {
  }
}
