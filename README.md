# rrb: a delay relay for Ethernet frames

`rrb.c` reads raw Ethernet frames from one packet socket. It rewrites the two
MAC addresses of each frame to fixed values and stamps the frame with a
deadline 1.5 s after capture. It appends the frame to a singly-linked queue
(`first_frame`). On every pass of its `while (1)` loop it writes the head of
the queue to a second socket once the head is due. It then polls for input for
as long as the new head still has to wait.

This project models everything between the `read` and the `write`:

- `time.dfy` (module `Time`): `struct timeval`, and the `timeradd` and
  `timersub` macros. It also holds the two computations built on them: the
  deadline of `schedule_frame` and the millisecond wait of `ttn_frame`.
- `ether.dfy` (module `Ether`): the header rewrite of `translate_frame`. It
  covers the destination and source addresses, octets 0..5 and 6..11 of the
  MAC frame layout of IEEE 802.3 clause 3.1.1. It also gives the bytes a
  capture of a given length ends up queuing.
- `frames.dfy` (module `Frames`): `frame_t` as the class `Frame`, and the
  in-place methods `TranslateFrame` and `ScheduleFrame`.
- `queue.dfy` (module `Queue`): the list headed by `first_frame` as the class
  `FrameQueue`. The class is built from linked `Frame` nodes and carries a
  ghost sequence of the nodes and of the values they hold. It has
  `queue_frame` (with its tail walk), `dole_frame`, `ttn_frame` and
  `count_frames`. The pure functions `Ttn` and `Dole` specify them on
  sequences.
- `relay.dfy` (module `Relay`): one pass of the loop. `StepSpec` and `Run`
  give it on values, together with the FIFO, accounting and ordering lemmas.
  The class `Relay` runs a pass on the linked queue and the capture buffer
  `work`.

Each pass takes up to three readings of the wall clock: one in
`schedule_frame`, one in the `ttn_frame` called by `dole_frame`, and one in
the `ttn_frame` called by `main`. `schedule_frame` runs only when the read
length is positive (rrb.c:105-107). `ttn_frame` returns 5000 before reading
the clock when the queue is empty (rrb.c:201-207), and `dole_frame` does not
call it at all then (rrb.c:183). So an idle pass takes no clock reading.
The readings come in as three separate parameters, and the model ignores
each one the pass does not take (`Relay.StepIgnoresUntakenReadings`). The result of
`read` comes in as a length and the bytes stored. The bytes handed to
`write` come out as an optional payload.

Points where the code differs from the usual description of the relay (the
model follows the code):

- Readiness. A frame is sent when `ttn_frame` returns 0 (rrb.c:183).
  `ttn_frame` truncates to whole milliseconds (rrb.c:219). So the head is
  due once its deadline is less than 1000 us away, not once the deadline
  has passed: a frame can leave up to 999 us early (`Queue.Ready`,
  `Queue.DoleTiming`, `Time.WaitZeroBeforeDeadline`). An overdue head is
  always sent.
- Read results. Any length <= 0 is skipped (rrb.c:103-105). No error of
  `read` is fatal, and "would block" is not told apart from other errors
  (`Relay.EventOk` admits any length up to 4096).
- Deadline order. The queue is sorted by deadline only when the clock
  readings of `schedule_frame` never go back. `gettimeofday` is not
  monotonic, and `queue_frame` appends without comparing
  (`Relay.RunKeepsSorted`, `Relay.ClockStepBackUnsorts`).
- Writes. A short write is not checked. Only a negative return of `write`
  aborts (rrb.c:187-188).

## Model

| member | source | states |
|---|---|---|
| Time.TimerAdd | rrb.c:141 | the sum of two normalised timevals is normalised (carry of one second) and denotes the sum of the two microsecond counts |
| Time.TimerSub | rrb.c:208 | the difference of two normalised timevals is normalised (borrow of one second) and denotes the difference of the microsecond counts |
| Time.NegativeSecIff | rrb.c:210-212 | the seconds field of a normalised timeval is negative exactly when the instant it denotes is negative (1 us late gives sec = -1, usec = 999999) |
| Time.SubNegativeIff | rrb.c:214-217 | the `diff.tv_sec < 0` test of ttn_frame holds exactly when the deadline is earlier than now |
| Time.Deadline | rrb.c:130-143 | the deadline of a frame captured at `now` is normalised and lies exactly 1500000 us after `now` |
| Time.WaitMillis | rrb.c:207-221 | the wait is never negative; it is 0 for a deadline already passed, else (deadline_us - now_us) div 1000 |
| Time.MillisOfSplit | rrb.c:219 | `sec * 1000 + usec / 1000` equals the whole-millisecond truncation of the full microsecond count |
| Time.WaitZeroIff | rrb.c:214-219 | the wait is 0 if and only if the deadline is less than 1000 us after now |
| Time.WaitZeroWhenOverdue | rrb.c:216-217 | a deadline at or before now gives a wait of exactly 0 |
| Time.WaitAtMostDelay | rrb.c:133-134 | when now is not earlier than the capture time, the wait for that frame is at most 1500 ms |
| Time.WaitZeroBeforeDeadline | rrb.c:219 | 999 us before the deadline the wait is already 0 |
| Ether.Translate | rrb.c:144-147 | octets 0..5 become F5:00:00:00:00:02 and octets 6..11 become F5:00:00:00:00:01; the length and every later octet are unchanged |
| Ether.TranslateIgnoresOldAddresses | rrb.c:144-147 | the rewritten frame does not depend on the addresses it carried before |
| Ether.TranslateIdempotent | rrb.c:144-147 | rewriting a rewritten frame changes nothing |
| Ether.Payload | rrb.c:103-108 | the queued bytes of a capture have its length; the first twelve are the fixed address octets, the rest are the captured ones |
| Ether.CapturedPayload | rrb.c:103-106 | rewriting the whole capture buffer and keeping the first `length` octets gives `Payload`, whatever stale bytes follow the capture |
| Frames.Frame.Buffer | rrb.c:92 | the capture buffer holds BIGGEST_FRAME octets of unspecified content and no link |
| Frames.Frame.Copy | rrb.c:155-161 | the copy made by malloc + memcpy has the same length, deadline and link as the original and only its first `length` octets |
| Frames.TranslateFrame | rrb.c:144-147 | the frame's bytes become `Translate` of the old bytes, written source address first; no other field changes |
| Frames.ScheduleFrame | rrb.c:130-143 | the frame's deadline becomes `Deadline(now)`, normalised and exactly now + 1500000 us; no other field changes |
| Queue.Ttn | rrb.c:196-222 | 5000 on an empty queue; otherwise max(0, (head deadline_us - now_us) div 1000); 0 exactly when the head is ready |
| Queue.Ready | rrb.c:183 | the head is ready exactly when the queue is non-empty and the ttn_frame computation on its deadline yields 0 |
| Queue.Dole | rrb.c:179-193 | a ready head is removed and its bytes are sent; otherwise the queue is unchanged and nothing is sent |
| Queue.DoleTiming | rrb.c:183 | a frame that is sent is at most 999 us early; a head whose deadline has passed is always sent |
| Queue.FrameQueue.constructor | rrb.c:149 | the queue starts empty |
| Queue.FrameQueue.QueueFrame | rrb.c:151-178 | the queue becomes the old queue followed by one new node with the input's length, deadline and first `length` bytes; the new node ends the list; the input frame is not linked in |
| Queue.FrameQueue.LastFrame | rrb.c:163-171 | the walk along `next` from the head stops at the last node of the list |
| Queue.FrameQueue.TtnFrame | rrb.c:196-222 | ttn_frame on the linked list equals `Ttn` of its contents |
| Queue.FrameQueue.DoleFrame | rrb.c:179-193 | the list and the bytes written are those of `Dole` on the old contents |
| Queue.FrameQueue.CountFrames | rrb.c:224-234 | the walk counts exactly the frames queued |
| Relay.StepSpec | rrb.c:100-118 | one pass keeps every queued entry well formed; the frame written followed by the new queue equals the old queue followed by the frame accepted; the wait is never negative and is 5000 on an empty queue |
| Relay.StepIgnoresUntakenReadings | rrb.c:100-118 | a pass does not depend on the capture reading when nothing was read, on the dole reading when the queue is empty before the dole, or on the wait reading when it is empty after it |
| Relay.StepCount | rrb.c:100-118 | a pass grows the queue by one exactly when the read length is positive and shrinks it by one exactly when a frame is written |
| Relay.Run | rrb.c:100-118 | the `while (1)` pass repeated over a sequence of inputs; every queued entry stays well formed (its length counts its bytes and its deadline is normalised) |
| Relay.RunFifo | rrb.c:100-118 | over any run, the frames written followed by those still queued are the frames queued at the start followed by all frames accepted, in order |
| Relay.SentIsPrefixOfAccepted | rrb.c:100-118 | from an empty queue, the frames written are a prefix of the frames accepted |
| Relay.RunCount | rrb.c:100-118 | queue length after a run is the starting length plus the frames accepted minus the frames written |
| Relay.IdleRun | rrb.c:100-118 | with no positive read the queue stays empty, nothing is written and every pass waits 5000 ms |
| Relay.HoldScenario | rrb.c:100-118 | a 64-byte frame captured at 0 s is still held at 1 s and is written at 1.5 s |
| Relay.StepKeepsSorted | rrb.c:151-178 | appending a frame whose capture time is not earlier than all earlier ones keeps the deadlines sorted |
| Relay.RunKeepsSorted | rrb.c:151-178 | deadlines stay sorted head to tail over a run whose capture clock readings never go back |
| Relay.ClockStepBackUnsorts | rrb.c:137-141 | a capture clock reading that goes back by 1 s leaves the queue out of deadline order |
| Relay.Relay.constructor | rrb.c:92 | the relay starts with an empty queue and a capture buffer apart from it |
| Relay.Relay.Ingest | rrb.c:103-111 | the read result is stored at the front of `work`; a positive length translates, schedules and queues exactly `Captured(...)`, and otherwise the queue and the buffer contents are unchanged; the buffer's link is never touched |
| Relay.Relay.Step | rrb.c:100-118 | a pass on the linked queue prints the old count and writes and waits exactly as `StepSpec` does; the queue becomes `StepSpec`'s queue; the link of `work` is left as it was |

## Left out

- Socket creation, the `fcntl` non-blocking setup, `if_nametoindex` and `bind` (rrb.c:61-88) are operating-system set-up and are not modelled.
- `read`, `write` and `poll` are not modelled as system calls. The read result is an input and the written bytes are an output. The poll timeout is returned, and the wait itself has no effect on the queue.
- `gettimeofday` is a parameter. Its failure, which calls `err()` in `schedule_frame`, is not modelled. In `ttn_frame` the result is not checked at all.
- `malloc` failure (`err("malloc()")`) and `free` are not modelled. `Queue.FrameQueue.DoleFrame` unlinks the head but leaves it in the ghost footprint `Repr`.
- Queue.FrameQueue.DoleFrame: a negative return of `write` aborts the program (rrb.c:187-188). This is not modelled, because the write is not modelled. A short write goes unnoticed in the source, and the model always hands over the whole payload.
- `mac_atob` (in `mac.h`, which is not part of this model) is taken to store the six octets its string spells. The two addresses are constants.
- The `printf` status line prints `count_frames()`. `Relay.Relay.Step` returns that count and leaves out the printing.
- C `int` overflow is not modelled. This covers `diff.tv_sec * 1000` in `ttn_frame` and the `time_t` seconds, which are unbounded integers here.
- The first contents of the stack buffer `work` are not initialised in C. They are a parameter of `Relay.Relay.constructor`.
- Frames.Frame.Buffer: the `next` field of `work` is uninitialised in C (rrb.c:92). The model sets it to null. This does not matter, because `queue_frame` overwrites the copied link (rrb.c:177).
- Relay.Relay.Step: it carries no ghost history of accepted and written frames. FIFO order across passes is proved on `StepSpec` and `Run` (`Relay.RunFifo`), and `Step` is tied to `StepSpec` pass by pass.
