/** The body of the `while (1)` loop in main: read a frame, and if the read
    returned a positive length translate, schedule and queue it; then dole
    at most one due frame and recompute the poll timeout. The OS calls are
    inputs and outputs here: the read result and the up to three clock
    readings come in as an Event, the write comes out as the bytes handed
    to it. */
module Relay {
  import opened Time
  import opened Ether
  import opened Frames
  import opened Queue

  /** The inputs of one pass: what read() returned and stored, and the
      clock readings taken by schedule_frame, by ttn_frame inside
      dole_frame, and by ttn_frame in main. Each is a separate
      gettimeofday call, made only when the pass gets that far: only for
      a positive length, and only on a non-empty queue for the other two.
      A reading the pass does not take is ignored (StepIgnoresUntakenReadings). */
  datatype Event = Event(length: int, bytes: seq<byte>, captureTime: TimeVal,
                         doleTime: TimeVal, waitTime: TimeVal)

  /** read() returns at most BIGGEST_FRAME and stores exactly the bytes it
      counts; gettimeofday gives normalised timevals. Any length <= 0 is
      allowed: an error, end of file or "would block". */
  predicate EventOk(e: Event) {
    e.length <= BiggestFrame && (e.length > 0 ==> |e.bytes| == e.length) &&
    Normalized(e.captureTime) && Normalized(e.doleTime) && Normalized(e.waitTime)
  }

  predicate EventsOk(evs: seq<Event>) {
    forall i :: 0 <= i < |evs| ==> EventOk(evs[i])
  }

  /** The frames, in order, that a run of passes appends to the queue:
      one per read with a positive length. */
  function Accepted(evs: seq<Event>): (ps: seq<seq<byte>>)
    ensures |ps| <= |evs|
  {
    if evs == [] then [] else AcceptedBy(evs[0]) + Accepted(evs[1..])
  }

  /** The bytes one pass appends to the queue, if any. */
  function AcceptedBy(e: Event): (ps: seq<seq<byte>>)
    ensures |ps| <= 1
  {
    if e.length > 0 then [Payload(e.bytes)] else []
  }

  /** The frame a pass appends, if any. */
  function Captured(length: int, bytes: seq<byte>, captureTime: TimeVal): seq<Entry>
    requires Normalized(captureTime)
  {
    if length > 0 then [Entry(length, Deadline(captureTime), Payload(bytes))]
    else []
  }

  function SentSeq(s: Option<seq<byte>>): seq<seq<byte>> {
    match s
    case None => []
    case Some(p) => [p]
  }

  /** The queue after a pass, what the pass wrote, and the poll timeout it
      computed (mswait). */
  datatype Outcome = Outcome(queue: seq<Entry>, sent: Option<seq<byte>>, wait: int)

  /** One pass of the loop on queue `q`. */
  function StepSpec(q: seq<Entry>, e: Event): (o: Outcome)
    requires QueueOk(q) && EventOk(e)
    ensures QueueOk(o.queue)
    ensures 0 <= o.wait && (o.queue == [] ==> o.wait == IdleWaitMillis)
    ensures SentSeq(o.sent) + Payloads(o.queue) == Payloads(q) + AcceptedBy(e)
  {
    var grown := q + Captured(e.length, e.bytes, e.captureTime);
    var d := Dole(grown, e.doleTime);
    PayloadsAppend(q, Captured(e.length, e.bytes, e.captureTime));
    PayloadsTail(grown);
    Outcome(d.rest, d.sent, Ttn(d.rest, e.waitTime))
  }

  /** A pass depends only on the clock readings it takes: the capture
      reading only when a frame was read, the dole reading only when the
      queue is non-empty after the capture, and the wait reading only when
      it is non-empty after the dole. */
  lemma StepIgnoresUntakenReadings(q: seq<Entry>, e: Event, t: TimeVal)
    requires QueueOk(q) && EventOk(e) && Normalized(t)
    ensures e.length <= 0 ==> StepSpec(q, e.(captureTime := t)) == StepSpec(q, e)
    ensures q + Captured(e.length, e.bytes, e.captureTime) == [] ==>
              StepSpec(q, e.(doleTime := t)) == StepSpec(q, e)
    ensures StepSpec(q, e).queue == [] ==> StepSpec(q, e.(waitTime := t)) == StepSpec(q, e)
  {
  }

  /** Each pass appends at most one frame (exactly one for a positive
      read length) and removes at most one. */
  lemma StepCount(q: seq<Entry>, e: Event)
    requires QueueOk(q) && EventOk(e)
    ensures var o := StepSpec(q, e);
            |o.queue| == |q| + (if e.length > 0 then 1 else 0) - (if o.sent.Some? then 1 else 0)
  {
    var o := StepSpec(q, e);
    assert |SentSeq(o.sent) + Payloads(o.queue)| == |Payloads(q) + AcceptedBy(e)|;
  }

  /** What a run of passes leaves queued, and everything it wrote, in
      order. */
  datatype Trace = Trace(queue: seq<Entry>, sent: seq<seq<byte>>)

  function Run(q: seq<Entry>, evs: seq<Event>): (t: Trace)
    requires QueueOk(q) && EventsOk(evs)
    ensures QueueOk(t.queue)
    decreases |evs|
  {
    if evs == [] then Trace(q, [])
    else
      var o := StepSpec(q, evs[0]);
      var t := Run(o.queue, evs[1..]);
      Trace(t.queue, SentSeq(o.sent) + t.sent)
  }

  /** FIFO: everything written, followed by what is still queued, is what
      was queued before followed by what the run accepted, in order. */
  lemma {:induction false} RunFifo(q: seq<Entry>, evs: seq<Event>)
    requires QueueOk(q) && EventsOk(evs)
    ensures Run(q, evs).sent + Payloads(Run(q, evs).queue) == Payloads(q) + Accepted(evs)
    decreases |evs|
  {
    if evs != [] {
      var o := StepSpec(q, evs[0]);
      var t := Run(o.queue, evs[1..]);
      RunFifo(o.queue, evs[1..]);
      Splice(SentSeq(o.sent), t.sent, Payloads(t.queue), Payloads(o.queue),
             Payloads(q), AcceptedBy(evs[0]), Accepted(evs[1..]));
    }
  }

  /** Starting from an empty queue, the frames written are a prefix of the
      frames accepted: frames leave in the order they were read, none is
      written twice and none is invented. */
  lemma SentIsPrefixOfAccepted(evs: seq<Event>)
    requires EventsOk(evs)
    ensures Run([], evs).sent <= Accepted(evs)
  {
    var t := Run([], evs);
    RunFifo([], evs);
    assert Payloads([]) + Accepted(evs) == Accepted(evs);
    assert (t.sent + Payloads(t.queue))[..|t.sent|] == t.sent;
  }

  /** Accounting: after a run the queue holds what it held before, plus
      the frames accepted, minus the frames written. */
  lemma RunCount(q: seq<Entry>, evs: seq<Event>)
    requires QueueOk(q) && EventsOk(evs)
    ensures |Run(q, evs).queue| == |q| + |Accepted(evs)| - |Run(q, evs).sent|
  {
    RunFifo(q, evs);
    assert |Run(q, evs).sent + Payloads(Run(q, evs).queue)| == |Payloads(q) + Accepted(evs)|;
  }

  /** With nothing ever read the queue stays empty, nothing is written and
      the timeout stays at the idle bound. */
  lemma {:induction false} IdleRun(evs: seq<Event>)
    requires EventsOk(evs)
    requires forall i :: 0 <= i < |evs| ==> evs[i].length <= 0
    ensures Run([], evs) == Trace([], [])
    ensures forall i :: 0 <= i < |evs| ==> StepSpec([], evs[i]).wait == IdleWaitMillis
    decreases |evs|
  {
    if evs != [] {
      assert StepSpec([], evs[0]).queue == [];
      IdleRun(evs[1..]);
    }
  }

  /** A 64-byte frame captured at time 0 is still held one second later
      and goes out once 1.5 s have passed. */
  lemma HoldScenario(bytes: seq<byte>)
    requires |bytes| == 64
    ensures var q := StepSpec([], Event(64, bytes, TimeVal(0, 0), TimeVal(0, 0), TimeVal(0, 0))).queue;
            q == [Entry(64, TimeVal(1, 500000), Payload(bytes))] &&
            Dole(q, TimeVal(1, 0)).sent == None &&
            Dole(q, TimeVal(1, 500000)).sent == Some(Payload(bytes))
  {
  }

  predicate DeadlinesSorted(q: seq<Entry>) {
    forall i, j :: 0 <= i < j < |q| ==> ToMicros(q[i].deadline) <= ToMicros(q[j].deadline)
  }

  /** Every deadline in `q` is at most `t` plus the hold time. */
  predicate DeadlinesWithin(q: seq<Entry>, t: int) {
    forall i :: 0 <= i < |q| ==> ToMicros(q[i].deadline) <= t + DelayMicros
  }

  /** The clock readings schedule_frame takes in `evs` (only passes that
      read a frame take one) never go below `t` and never go back. */
  predicate CapturesFrom(t: int, evs: seq<Event>)
    decreases |evs|
  {
    if evs == [] then true
    else if evs[0].length > 0 then
      t <= ToMicros(evs[0].captureTime) && CapturesFrom(ToMicros(evs[0].captureTime), evs[1..])
    else CapturesFrom(t, evs[1..])
  }

  lemma StepKeepsSorted(q: seq<Entry>, e: Event, t: int)
    requires QueueOk(q) && EventOk(e)
    requires DeadlinesSorted(q) && DeadlinesWithin(q, t)
    requires e.length > 0 ==> t <= ToMicros(e.captureTime)
    ensures var t' := if e.length > 0 then ToMicros(e.captureTime) else t;
            DeadlinesSorted(StepSpec(q, e).queue) && DeadlinesWithin(StepSpec(q, e).queue, t')
  {
    var grown := q + Captured(e.length, e.bytes, e.captureTime);
    var t' := if e.length > 0 then ToMicros(e.captureTime) else t;
    assert DeadlinesSorted(grown) && DeadlinesWithin(grown, t');
  }

  /** The queue stays sorted by deadline, but only if the clock readings of
      schedule_frame do not go back: gettimeofday is not monotonic, and
      queue_frame appends without comparing deadlines. */
  lemma {:induction false} RunKeepsSorted(q: seq<Entry>, evs: seq<Event>, t: int)
    requires QueueOk(q) && EventsOk(evs)
    requires DeadlinesSorted(q) && DeadlinesWithin(q, t)
    requires CapturesFrom(t, evs)
    ensures DeadlinesSorted(Run(q, evs).queue)
    decreases |evs|
  {
    if evs != [] {
      var e := evs[0];
      StepKeepsSorted(q, e, t);
      RunKeepsSorted(StepSpec(q, e).queue, evs[1..],
                     if e.length > 0 then ToMicros(e.captureTime) else t);
    }
  }

  /** Two readings of the wall clock that go back by 1 s put a later frame
      ahead of an earlier one in deadline order. */
  lemma ClockStepBackUnsorts()
    ensures var a := Event(1, [7], TimeVal(5, 0), TimeVal(0, 0), TimeVal(0, 0));
            var b := Event(1, [8], TimeVal(4, 0), TimeVal(0, 0), TimeVal(0, 0));
            !DeadlinesSorted(Run([], [a, b]).queue)
  {
    var a := Event(1, [7], TimeVal(5, 0), TimeVal(0, 0), TimeVal(0, 0));
    var b := Event(1, [8], TimeVal(4, 0), TimeVal(0, 0), TimeVal(0, 0));
    var o1 := StepSpec([], a);
    assert o1.queue == [Entry(1, Deadline(TimeVal(5, 0)), Payload([7]))];
    var o2 := StepSpec(o1.queue, b);
    assert o2.queue == o1.queue + [Entry(1, Deadline(TimeVal(4, 0)), Payload([8]))];
    assert [a, b][1..] == [b] && [b][1..] == [];
    assert Run(o1.queue, [b]).queue == o2.queue;
    assert Run([], [a, b]).queue == o2.queue;
    assert ToMicros(o2.queue[0].deadline) > ToMicros(o2.queue[1].deadline);
  }

  /** Regrouping of concatenations used to chain two FIFO equations. */
  lemma Splice<T>(s1: seq<T>, ts: seq<T>, pt: seq<T>, po: seq<T>, pq: seq<T>, a1: seq<T>, ar: seq<T>)
    requires ts + pt == po + ar
    requires s1 + po == pq + a1
    ensures (s1 + ts) + pt == pq + (a1 + ar)
  {
    calc {
      (s1 + ts) + pt;
      s1 + (ts + pt);
      s1 + (po + ar);
      (s1 + po) + ar;
      (pq + a1) + ar;
      pq + (a1 + ar);
    }
  }

  lemma PayloadsAppend(q: seq<Entry>, r: seq<Entry>)
    ensures Payloads(q + r) == Payloads(q) + Payloads(r)
  {
    assert forall i :: 0 <= i < |q + r| ==> Payloads(q + r)[i] == (Payloads(q) + Payloads(r))[i];
  }

  lemma PayloadsTail(q: seq<Entry>)
    ensures q != [] ==> Payloads(q) == [q[0].payload] + Payloads(q[1..])
  {
    if q != [] {
      assert forall i :: 0 <= i < |q| ==> Payloads(q)[i] == ([q[0].payload] + Payloads(q[1..]))[i];
    }
  }

  /** The state main keeps across passes: the queue headed by the global
      first_frame and the capture buffer `work`. The poll timeout
      `mswait` is recomputed from scratch on every pass, so Step returns
      it. */
  class Relay {
    const queue: FrameQueue
    const work: Frame

    ghost predicate Valid()
      reads queue, queue.Repr, work
    {
      queue.Valid() && work !in queue.Repr && |work.data| == BiggestFrame
    }

    /** Process start: an empty queue and a capture buffer holding
        whatever `buffer` holds. */
    constructor (buffer: seq<byte>)
      requires |buffer| == BiggestFrame
      ensures Valid() && fresh(queue.Repr) && fresh(work)
      ensures queue.Contents == []
    {
      queue := new FrameQueue();
      work := new Frame.Buffer(buffer);
    }

    /** The first half of a pass (the read and the `if (work.length > 0)`
        block): store the bytes read at the front of the buffer and, for a
        positive length, translate, schedule and queue the frame. */
    method Ingest(length: int, bytes: seq<byte>, captureTime: TimeVal)
      requires Valid()
      requires length <= BiggestFrame && (length > 0 ==> |bytes| == length)
      requires Normalized(captureTime)
      modifies queue.Repr, work
      ensures Valid() && fresh(queue.Repr - old(queue.Repr))
      ensures queue.Contents == old(queue.Contents) + Captured(length, bytes, captureTime)
      ensures work.length == length && work.next == old(work.next)
      ensures length > 0 ==> work.data == Translate(bytes + old(work.data)[length..])
      ensures length > 0 ==> work.timetogo == Deadline(captureTime)
      ensures length <= 0 ==> work.data == old(work.data) && work.timetogo == old(work.timetogo)
    {
      ghost var stale: seq<byte> := [];
      work.length := length;
      if length > 0 {
        stale := work.data[length..];
        work.data := bytes + work.data[length..];
      }
      if work.length > 0 {
        TranslateFrame(work);
        ScheduleFrame(work, captureTime);
        assert work.data[..work.length] == Payload(bytes) by {
          CapturedPayload(bytes, stale);
        }
        queue.QueueFrame(work);
      }
    }

    /** One pass of the loop. `shown` is the count printed in the status
        line, `out` the bytes handed to write(), if any, and `mswait` the
        timeout handed to poll(). */
    method Step(length: int, bytes: seq<byte>, captureTime: TimeVal,
                doleTime: TimeVal, waitTime: TimeVal)
      returns (shown: int, out: Option<seq<byte>>, mswait: int)
      requires Valid() && EventOk(Event(length, bytes, captureTime, doleTime, waitTime))
      modifies queue.Repr, work
      ensures Valid() && fresh(queue.Repr - old(queue.Repr))
      ensures shown == |old(queue.Contents)|
      ensures var o := StepSpec(old(queue.Contents), Event(length, bytes, captureTime, doleTime, waitTime));
              queue.Contents == o.queue && out == o.sent && mswait == o.wait
      ensures work.length == length && work.next == old(work.next)
      ensures length > 0 ==> work.data == Translate(bytes + old(work.data)[length..])
      ensures length > 0 ==> work.timetogo == Deadline(captureTime)
      ensures length <= 0 ==> work.data == old(work.data) && work.timetogo == old(work.timetogo)
    {
      shown := queue.CountFrames();
      Ingest(length, bytes, captureTime);
      out := queue.DoleFrame(doleTime);
      mswait := queue.TtnFrame(waitTime);
    }
  }
}
