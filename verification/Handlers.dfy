/** Many connections on one device: what each handler delivers, and what all of them leave. */
module Handlers {
  import opened Bytes
  import opened DataFileModel
  import opened DeviceModel
  import opened Framing
  import opened LockProtocol
  import opened MachineInts

  // ---- one handler ----

  /** The request of a step in which t receives a complete line. */
  function ReceivedBy(s: System, e: Event, t: nat): seq<Request>
    requires Inv(s)
  {
    if e.Receive? && e.t == t && s.At(t).Receiving? && Step(s, e).At(t).Waiting? then [e.req] else []
  }

  /** The requests that t has received, in order. */
  function Received(s: System, es: seq<Event>, t: nat): seq<Request>
    requires Inv(s)
  {
    if es == [] then []
    else Received(s, es[..|es| - 1], t) + ReceivedBy(Run(s, es[..|es| - 1]), es[|es| - 1], t)
  }

  /** The requests that t has delivered, in order. */
  function DeliveredBy(h: seq<Delivery>, t: nat): seq<Request> {
    if h == [] then []
    else DeliveredBy(h[..|h| - 1], t) + if h[|h| - 1].t == t then [h[|h| - 1].req] else []
  }

  lemma DeliveredOneMore(h: seq<Delivery>, d: Delivery, t: nat)
    ensures DeliveredBy(h + [d], t) == DeliveredBy(h, t) + if d.t == t then [d.req] else []
  {
    assert (h + [d])[..|h|] == h;
  }

  /** What t has delivered it has received before, in that order; and what it has in hand came last. */
  ghost predicate InStep(pc: Pc, received: seq<Request>, delivered: seq<Request>) {
    if HasSought(pc) then
      && received != [] && received[|received| - 1] == pc.req
      && IsSubsequence(delivered, received[..|received| - 1])
    else
      IsSubsequence(delivered, received)
  }

  lemma InStepAnyway(pc: Pc, received: seq<Request>, delivered: seq<Request>)
    requires InStep(pc, received, delivered)
    ensures IsSubsequence(delivered, received)
  {
    if HasSought(pc) { SubsequenceOfLonger(delivered, received[..|received| - 1], received); }
  }

  lemma StepKeepsInStep(s: System, e: Event, t: nat, received: seq<Request>)
    requires Inv(s) && s.store.DeviceStore? && InStep(s.At(t), received, DeliveredBy(s.history, t))
    ensures Step(s, e).store.DeviceStore?
    ensures InStep(Step(s, e).At(t), received + ReceivedBy(s, e, t), DeliveredBy(Step(s, e).history, t))
  {
    assert ThreadOk(s, t) && ThreadOk(s, e.t);
    StepKeepsKind(s, e);
    StepAppends(s, e);
    assert received + [] == received;
    if e.t != t {
      OtherInStep(s, e, t);
    } else if e.AppendLine? && s.At(t).Holding? {
      AppendInStep(s, e, received);
    } else {
      QuietInStep(s, e, received);
    }
  }

  lemma OtherInStep(s: System, e: Event, t: nat)
    requires Inv(s) && e.t != t
    ensures Step(s, e).At(t) == s.At(t) && DeliveredBy(Step(s, e).history, t) == DeliveredBy(s.history, t)
    ensures ReceivedBy(s, e, t) == []
  {
    OtherThreadsStay(s, e, t);
    StepAppends(s, e);
    if Appended(s, e) != [] {
      DeliveredOneMore(s.history, Appended(s, e)[0], t);
    } else {
      assert s.history + [] == s.history;
    }
  }

  lemma OtherThreadsStay(s: System, e: Event, t: nat)
    requires s.store.WellFormed() && e.t != t
    ensures Step(s, e).At(t) == s.At(t)
  {
  }

  lemma AppendInStep(s: System, e: Event, received: seq<Request>)
    requires Inv(s) && e.AppendLine? && s.At(e.t).Holding?
    requires InStep(s.At(e.t), received, DeliveredBy(s.history, e.t))
    ensures InStep(Step(s, e).At(e.t), received, DeliveredBy(Step(s, e).history, e.t))
    ensures ReceivedBy(s, e, e.t) == []
  {
    var pc, before := s.At(e.t), received[..|received| - 1];
    AppendEndsIt(s, e);
    assert received == before + [pc.req];
    SubsequenceOneMore(DeliveredBy(s.history, e.t), before, pc.req);
    if e.ok { DeliveredOneMore(s.history, Delivery(e.t, pc.pos, pc.req), e.t); }
  }

  lemma AppendEndsIt(s: System, e: Event)
    requires s.store.WellFormed() && e.AppendLine? && s.At(e.t).Holding?
    ensures !HasSought(Step(s, e).At(e.t))
    ensures var d := Delivery(e.t, s.At(e.t).pos, s.At(e.t).req);
      Step(s, e).history == if e.ok then s.history + [d] else s.history
  {
  }

  /** A step that appends nothing: t receives a line, waits on, or gives up what it has in hand. */
  lemma QuietInStep(s: System, e: Event, received: seq<Request>)
    requires Inv(s) && s.store.DeviceStore? && !(e.AppendLine? && s.At(e.t).Holding?)
    requires InStep(s.At(e.t), received, DeliveredBy(s.history, e.t))
    ensures InStep(Step(s, e).At(e.t), received + ReceivedBy(s, e, e.t), DeliveredBy(Step(s, e).history, e.t))
  {
    assert ThreadOk(s, e.t);
    InStepAnyway(s.At(e.t), received, DeliveredBy(s.history, e.t));
    assert received + [] == received;
    if ReceivedBy(s, e, e.t) != [] { assert (received + [e.req])[..|received|] == received; }
  }

  /** In every run in device mode each handler delivers, in order, requests that it has received. */
  lemma DeliversWhatItReceived(dev: Dev, es: seq<Event>, t: nat)
    requires dev.WellFormed()
    ensures var s := Initial(DeviceStore(dev));
      IsSubsequence(DeliveredBy(Run(s, es).history, t), Received(s, es, t))
  {
    StaysInStep(dev, es, t);
    var s := Initial(DeviceStore(dev));
    InStepAnyway(Run(s, es).At(t), Received(s, es, t), DeliveredBy(Run(s, es).history, t));
  }

  lemma {:induction false} StaysInStep(dev: Dev, es: seq<Event>, t: nat)
    requires dev.WellFormed()
    ensures var s := Initial(DeviceStore(dev));
      && Run(s, es).store.DeviceStore?
      && InStep(Run(s, es).At(t), Received(s, es, t), DeliveredBy(Run(s, es).history, t))
  {
    if es != [] {
      var s, before := Initial(DeviceStore(dev)), es[..|es| - 1];
      StaysInStep(dev, before, t);
      StepKeepsInStep(Run(s, before), es[|es| - 1], t, Received(s, before, t));
    }
  }

  // ---- all of them ----

  function WriteLines(lines: seq<seq<byte>>): seq<Request> {
    seq(|lines|, k requires 0 <= k < |lines| => WriteLine(lines[k]))
  }

  /** What thread t receives are, in order, the requests of the stream its client sends in these chunks. */
  ghost predicate ServesStream(s: System, es: seq<Event>, t: nat, chunks: seq<seq<byte>>,
                               stack: nat -> (uint32, uint32))
    requires Inv(s)
  {
    Received(s, es, t) <= Requests(ReceiveAll(chunks).flushes, stack)
  }

  lemma PlainStreamRequests(chunks: seq<seq<byte>>, stack: nat -> (uint32, uint32))
    requires PlainStream(chunks)
    ensures Requests(ReceiveAll(chunks).flushes, stack) == WriteLines(Lines(Flatten(chunks)))
    ensures forall l :: l in Lines(Flatten(chunks)) ==> IsLine(l)
  {
    PlainRequests(chunks, stack);
    LinesAreLines(Flatten(chunks));
  }

  lemma {:induction false} DeliveredIsIn(h: seq<Delivery>, k: nat)
    requires k < |h|
    ensures h[k].req in DeliveredBy(h, h[k].t)
  {
    if k < |h| - 1 {
      DeliveredIsIn(h[..|h| - 1], k);
    }
  }

  /** Each delivery is a line of its thread's stream, and a thread's deliveries keep the order of its stream. */
  lemma DeliveriesAreLines(es: seq<Event>, t: nat, chunks: seq<seq<byte>>, stack: nat -> (uint32, uint32))
    requires PlainStream(chunks) && ServesStream(Initial(DeviceStore(EMPTY_DEVICE)), es, t, chunks, stack)
    ensures var h := Run(Initial(DeviceStore(EMPTY_DEVICE)), es).history;
      && IsSubsequence(DeliveredBy(h, t), WriteLines(Lines(Flatten(chunks))))
      && forall k | 0 <= k < |h| && h[k].t == t :: h[k].req.WriteLine? && IsLine(h[k].req.bytes)
  {
    var s := Initial(DeviceStore(EMPTY_DEVICE));
    var h, reqs := Run(s, es).history, WriteLines(Lines(Flatten(chunks)));
    DeliversWhatItReceived(EMPTY_DEVICE, es, t);
    PlainStreamRequests(chunks, stack);
    SubsequenceOfLonger(DeliveredBy(h, t), Received(s, es, t), reqs);
    SubsequenceMembers(DeliveredBy(h, t), reqs);
    forall k | 0 <= k < |h| && h[k].t == t ensures h[k].req.WriteLine? && IsLine(h[k].req.bytes) {
      DeliveredIsIn(h, k);
      var j :| 0 <= j < |reqs| && reqs[j] == h[k].req;
      assert Lines(Flatten(chunks))[j] in Lines(Flatten(chunks));
    }
  }

  /** The bytes of the requests delivered. */
  function TextsOf(h: seq<Delivery>): seq<seq<byte>> {
    seq(|h|, k requires 0 <= k < |h| => if h[k].req.WriteLine? then h[k].req.bytes else [])
  }

  /**
   * Any number of connections on an empty device, interleaved in any way. Each thread's deliveries are
   * lines of its own stream in the order of that stream; the device holds the last ten lines of all
   * that were delivered, nothing pending; and every complete response behind a successful append is
   * the last ten lines up to and including the thread's own.
   */
  lemma ConnectionsKeepLastTenLines(es: seq<Event>, chunks: nat -> seq<seq<byte>>,
                                    stack: nat -> nat -> (uint32, uint32))
    requires forall t: nat :: PlainStream(chunks(t))
    requires forall t: nat :: ServesStream(Initial(DeviceStore(EMPTY_DEVICE)), es, t, chunks(t), stack(t))
    ensures var s := Run(Initial(DeviceStore(EMPTY_DEVICE)), es);
      var lines := TextsOf(s.history);
      && (forall t: nat :: IsSubsequence(DeliveredBy(s.history, t), WriteLines(Lines(Flatten(chunks(t))))))
      && s.store.DeviceStore?
      && s.store.dev.ring.items == LastN(lines, CAPACITY) && s.store.dev.pending == []
      && (forall r | r in s.log && r.ok && r.complete ::
            1 <= r.count <= |lines| && r.sent == Flatten(LastN(lines[..r.count], CAPACITY)))
  {
    var s := Run(Initial(DeviceStore(EMPTY_DEVICE)), es);
    forall t: nat ensures IsSubsequence(DeliveredBy(s.history, t), WriteLines(Lines(Flatten(chunks(t))))) {
      assert PlainStream(chunks(t));
      DeliveriesAreLines(es, t, chunks(t), stack(t));
    }
    forall k | 0 <= k < |s.history| ensures s.history[k].req.WriteLine? && IsLine(s.history[k].req.bytes) {
      DeliveriesAreLines(es, s.history[k].t, chunks(s.history[k].t), stack(s.history[k].t));
    }
    LinesOnDevice(es);
    forall r | r in s.log && r.ok && r.complete
      ensures 1 <= r.count <= |s.history| && r.sent == Flatten(LastN(TextsOf(s.history)[..r.count], CAPACITY))
    {
      LineResponse(es, r);
    }
  }

  ghost predicate AllLines(h: seq<Delivery>) {
    forall k | 0 <= k < |h| :: h[k].req.WriteLine? && IsLine(h[k].req.bytes)
  }

  lemma LinesOnDevice(es: seq<Event>)
    requires AllLines(Run(Initial(DeviceStore(EMPTY_DEVICE)), es).history)
    ensures var s := Run(Initial(DeviceStore(EMPTY_DEVICE)), es);
      && s.store.DeviceStore?
      && s.store.dev.ring.items == LastN(TextsOf(s.history), CAPACITY) && s.store.dev.pending == []
  {
    var h := Run(Initial(DeviceStore(EMPTY_DEVICE)), es).history;
    DeviceRunIsSequential(EMPTY_DEVICE, es);
    LinesPushed(Requested(h), TextsOf(h));
  }

  lemma LineResponse(es: seq<Event>, r: Response)
    requires AllLines(Run(Initial(DeviceStore(EMPTY_DEVICE)), es).history)
    requires r in Run(Initial(DeviceStore(EMPTY_DEVICE)), es).log && r.ok && r.complete
    ensures var h := Run(Initial(DeviceStore(EMPTY_DEVICE)), es).history;
      1 <= r.count <= |h| && r.sent == Flatten(LastN(TextsOf(h)[..r.count], CAPACITY))
  {
    var s := Run(Initial(DeviceStore(EMPTY_DEVICE)), es);
    var k :| 0 <= k < |s.log| && s.log[k] == r;
    EveryResponseAnswers(EMPTY_DEVICE, es, k);
    LineAnswered(Requested(s.history), TextsOf(s.history), r.count - 1);
  }
}
