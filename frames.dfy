/** frame_t and the two functions that fill in a captured frame in place:
    translate_frame (address rewrite) and schedule_frame (deadline). */
module Frames {
  import opened Time
  import opened Ether

  /** BIGGEST_FRAME: the size of the buffer a capture is read into. */
  const BiggestFrame: int := 4096

  datatype Option<T> = None | Some(value: T)

  /** The value a queued frame_t carries: the length read, the deadline
      (timetogo) and the copied bytes. */
  datatype Entry = Entry(length: int, deadline: TimeVal, payload: seq<byte>)

  /** What every queued frame satisfies: its length counts its bytes and
      its deadline came out of timeradd. */
  predicate EntryOk(e: Entry) {
    e.length == |e.payload| && Normalized(e.deadline)
  }

  /** frame_t. The capture buffer (`work` in main) holds BiggestFrame
      bytes; a queued copy holds only the `length` bytes it was allocated
      for. */
  class Frame {
    var length: int
    var timetogo: TimeVal
    var next: Frame?
    var data: seq<byte>

    /** The capture buffer before the first read: contents unspecified. */
    constructor Buffer(initial: seq<byte>)
      requires |initial| == BiggestFrame
      ensures data == initial && next == null
    {
      length := 0;
      timetogo := TimeVal(0, 0);
      next := null;
      data := initial;
    }

    /** The malloc + memcpy of queue_frame: the header fields (next
      included) and the first `length` bytes of the data. */
    constructor Copy(f: Frame)
      requires 0 <= f.length <= |f.data|
      ensures length == f.length && timetogo == f.timetogo && next == f.next
      ensures data == f.data[..f.length]
    {
      length := f.length;
      timetogo := f.timetogo;
      next := f.next;
      data := f.data[..f.length];
    }
  }

  /** translate_frame: rewrite the two addresses of the frame in place;
      its length, deadline and link are untouched. */
  method TranslateFrame(f: Frame)
    requires |f.data| >= AddrLen
    modifies f`data
    ensures f.data == Translate(old(f.data))
  {
    // mac_atob into h_source, then into h_dest
    f.data := f.data[..MacLen] + SourceMac + f.data[AddrLen..];
    f.data := DestMac + f.data[MacLen..];
  }

  /** schedule_frame, with the gettimeofday reading passed in as `now`:
      the frame's deadline becomes now + 1.5 s. */
  method ScheduleFrame(f: Frame, now: TimeVal)
    requires Normalized(now)
    modifies f`timetogo
    ensures f.timetogo == Deadline(now)
    ensures Normalized(f.timetogo)
    ensures ToMicros(f.timetogo) == ToMicros(now) + DelayMicros
  {
    var tv := now;
    f.timetogo := TimerAdd(tv, Delay);
  }
}
