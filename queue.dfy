/** The queue of held frames: the singly-linked list headed by the global
    `first_frame`, with queue_frame (append at the tail), dole_frame
    (send the head once it is due), ttn_frame (wait until the head is
    due) and count_frames (length). */
module Queue {
  import opened Time
  import opened Ether
  import opened Frames

  /** What ttn_frame returns on an empty queue, in milliseconds. */
  const IdleWaitMillis: int := 5000

  predicate QueueOk(q: seq<Entry>) {
    forall i :: 0 <= i < |q| ==> EntryOk(q[i])
  }

  /** The bytes of each queued frame, head first. */
  function Payloads(q: seq<Entry>): (ps: seq<seq<byte>>)
    ensures |ps| == |q|
    ensures forall i :: 0 <= i < |q| ==> ps[i] == q[i].payload
  {
    seq(|q|, i requires 0 <= i < |q| => q[i].payload)
  }

  /** ttn_frame on queue `q` with clock reading `now`: the idle bound on an
      empty queue, otherwise the whole milliseconds until the head's
      deadline, never negative. */
  function Ttn(q: seq<Entry>, now: TimeVal): (ms: int)
    requires QueueOk(q) && Normalized(now)
    ensures 0 <= ms
    ensures q == [] ==> ms == IdleWaitMillis
    ensures q != [] ==>
              var d := ToMicros(q[0].deadline) - ToMicros(now);
              ms == if d < 0 then 0 else d / MicrosPerMilli
    ensures ms == 0 <==> Ready(q, now)
  {
    if q == [] then IdleWaitMillis
    else
      WaitZeroIff(q[0].deadline, now);
      WaitMillis(q[0].deadline, now)
  }

  /** The head may be sent: its deadline is less than one millisecond
      after `now` (it may already have passed). This is the closed form of
      the `ttn_frame() > 0` test of dole_frame. */
  predicate Ready(q: seq<Entry>, now: TimeVal)
    requires QueueOk(q) && Normalized(now)
    ensures Ready(q, now) <==> q != [] && WaitMillis(q[0].deadline, now) == 0
  {
    q != [] && ToMicros(q[0].deadline) - ToMicros(now) < MicrosPerMilli
  }

  /** The queue after dole_frame and the bytes it wrote, if any. */
  datatype Doled = Doled(rest: seq<Entry>, sent: Option<seq<byte>>)

  /** dole_frame on queue `q`: nothing happens unless the queue is
      non-empty and ttn_frame says 0; then the head's bytes are written
      and the head is unlinked. */
  function Dole(q: seq<Entry>, now: TimeVal): (r: Doled)
    requires QueueOk(q) && Normalized(now)
    ensures Ready(q, now) ==> r.rest == q[1..] && r.sent == Some(q[0].payload)
    ensures !Ready(q, now) ==> r.rest == q && r.sent == None
  {
    if q == [] || Ttn(q, now) > 0 then Doled(q, None)
    else Doled(q[1..], Some(q[0].payload))
  }

  /** A frame that is sent is at most 999 us early, and a frame whose
      deadline has passed is always sent. */
  lemma DoleTiming(q: seq<Entry>, now: TimeVal)
    requires QueueOk(q) && Normalized(now)
    ensures Dole(q, now).sent.Some? ==>
              ToMicros(now) > ToMicros(q[0].deadline) - MicrosPerMilli
    ensures q != [] && ToMicros(q[0].deadline) <= ToMicros(now) ==>
              Dole(q, now).sent == Some(q[0].payload)
  {
  }

  /** The list headed by `first_frame`. `nodes` are its frames in list
      order and `Contents` the values they hold. */
  class FrameQueue {
    var first: Frame?
    ghost var nodes: seq<Frame>
    ghost var Contents: seq<Entry>
    ghost var Repr: set<object>

    ghost predicate Valid()
      reads this, Repr
    {
      this in Repr &&
      (forall i :: 0 <= i < |nodes| ==> nodes[i] in Repr) &&
      |nodes| == |Contents| && QueueOk(Contents) &&
      (nodes == [] ==> first == null) &&
      (nodes != [] ==> first == nodes[0] && nodes[|nodes| - 1].next == null) &&
      (forall i {:trigger nodes[i].next} :: 0 <= i < |nodes| - 1 ==> nodes[i].next == nodes[i + 1]) &&
      (forall i :: 0 <= i < |nodes| ==>
         nodes[i].length == Contents[i].length && nodes[i].timetogo == Contents[i].deadline &&
         nodes[i].data == Contents[i].payload)
    }

    /** `first_frame = NULL`. */
    constructor ()
      ensures Valid() && fresh(Repr)
      ensures Contents == []
    {
      first := null;
      nodes := [];
      Contents := [];
      Repr := {this};
    }

    /** queue_frame: copy `f` (header fields and its first `length`
        bytes) into a new node, walk to the last node and link the copy
        behind it. `f` itself is not linked into the list. */
    method QueueFrame(f: Frame)
      requires Valid() && f !in Repr
      requires 0 <= f.length <= |f.data| && Normalized(f.timetogo)
      modifies Repr
      ensures Valid() && fresh(Repr - old(Repr))
      ensures Contents == old(Contents) + [Entry(f.length, f.timetogo, f.data[..f.length])]
    {
      var newFrame := new Frame.Copy(f);
      assert forall k :: 0 <= k < |nodes| ==> nodes[k] != newFrame;
      var last: Frame;
      if first == null {
        first := newFrame;
        last := newFrame;
      } else {
        last := LastFrame();
      }
      assert nodes == [] ==> last == newFrame;
      assert nodes != [] ==> last == nodes[|nodes| - 1];
      assert forall k :: 0 <= k < |nodes| - 1 ==> nodes[k] != last;
      last.next := newFrame;
      newFrame.next := null;
      nodes := nodes + [newFrame];
      Contents := Contents + [Entry(f.length, f.timetogo, f.data[..f.length])];
      Repr := Repr + {newFrame};
    }

    /** The walk of queue_frame that finds the last node: follow `next`
        until it is NULL. */
    method LastFrame() returns (last: Frame)
      requires Valid() && first != null
      ensures last == nodes[|nodes| - 1]
    {
      last := first;
      ghost var i := 0;
      while last.next != null
        invariant 0 <= i < |nodes| && last == nodes[i]
        decreases |nodes| - i
      {
        last := last.next;
        i := i + 1;
      }
    }

    /** ttn_frame, with the gettimeofday reading passed in as `now`. */
    function TtnFrame(now: TimeVal): (ms: int)
      reads this, Repr
      requires Valid() && Normalized(now)
      ensures ms == Ttn(Contents, now)
    {
      if first == null then IdleWaitMillis
      else WaitMillis(first.timetogo, now)
    }

    /** dole_frame: when the head is due, return the bytes written for it
        and unlink (free) it; otherwise change nothing. The clock reading
        is the one ttn_frame takes inside dole_frame. */
    method DoleFrame(now: TimeVal) returns (sent: Option<seq<byte>>)
      requires Valid() && Normalized(now)
      modifies this
      ensures Valid() && fresh(Repr - old(Repr))
      ensures Contents == Dole(old(Contents), now).rest
      ensures sent == Dole(old(Contents), now).sent
    {
      if first == null || TtnFrame(now) > 0 {
        return None;
      }
      assert EntryOk(Contents[0]);
      sent := Some(first.data[..first.length]);
      assert first.data[..first.length] == Contents[0].payload;
      assert Ready(Contents, now);
      first := first.next;
      nodes := nodes[1..];
      Contents := Contents[1..];
    }

    /** count_frames: walk the list and count its nodes. */
    method CountFrames() returns (c: int)
      requires Valid()
      ensures c == |Contents|
    {
      c := 0;
      var ptr := first;
      while ptr != null
        invariant 0 <= c <= |nodes|
        invariant c < |nodes| ==> ptr == nodes[c]
        invariant c == |nodes| ==> ptr == null
        decreases |nodes| - c
      {
        c := c + 1;
        ptr := ptr.next;
      }
    }
  }
}
