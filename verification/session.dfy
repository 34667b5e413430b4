/** The per-connection stream session `websocket_transcription_endpoint`
    (main.py:101-166) as a transducer over the sequence of things
    `websocket.receive_bytes()` yields. The blocking worker that the
    session hands each segment to is a parameter, called synchronously; the
    clock that stamps segment ids is a parameter too. The outputs are the
    worker submissions and the messages sent to the client. */
module StreamSession {
  import opened Basics
  import opened Decimal

  /** What one call of `receive_bytes()` produces. */
  datatype Event =
    | Frame(data: seq<byte>)   // a binary message, possibly empty
    | Disconnect               // WebSocketDisconnect raised: the peer closed
    | Fault(reason: string)    // any other `Exception`, carried as `str(e)`

  /** The JSON messages the session sends to the client. */
  datatype Message =
    | ChunkComplete(text: string)       // {"text": ..., "status": "chunk_complete"}
    | FinalChunkComplete(text: string)  // {"text": ..., "status": "final_chunk_complete"}
    | ServerError(error: string)        // {"error": ..., "status": "server_error"}

  /** One hand-off of a segment to the worker. */
  datatype Submission = Submission(payload: seq<byte>, segmentId: string)

  /** `Receiving` while the loop runs; the other two are the handler's exits
      through `except WebSocketDisconnect` and `except Exception`. */
  datatype Phase = Receiving | Disconnected | Aborted

  datatype Session = Session(
    buffer: seq<byte>,          // audio_buffer's contents
    counter: nat,               // segment_counter
    submitted: seq<Submission>, // worker calls, in order
    sent: seq<Message>,         // messages sent, in order
    consumed: nat,              // events taken from the connection
    phase: Phase)

  /** The segment worker: `Ok(text)` when it returns, `Err(str(e))` when it
      raises. */
  type Worker = (seq<byte>, string) -> Result<string, string>

  /** The wall-clock text `str(time.time())` read for segment `n`. */
  type Clock = nat -> string

  const ServerErrorPrefix: string := "Erro interno do servidor: "

  /** The id given to the segment flushed on disconnect. */
  const FinalSegmentId: string := "seg_final"

  /** `f"seg_{n}_{stamp}"`: the fixed `seg_`, the counter's digits, and
      the clock text after a `_`. */
  function SegmentId(n: nat, stamp: string): (id: string)
    ensures |id| > 5 + |stamp| && id[..4] == "seg_" && IsDigit(id[4])
    ensures id[|id| - |stamp| - 1..] == "_" + stamp
  {
    var digits := NatToString(n);
    assert ("seg_" + digits + "_" + stamp)[4] == digits[0];
    "seg_" + digits + "_" + stamp
  }

  /** A segment id reads back: after `seg_` come decimal digits up to the
      first `_`, which read as the counter and have no leading zero unless
      the counter is 0, and after that `_` comes the clock text, verbatim. */
  lemma SegmentIdReadsBack(n: nat, stamp: string)
    ensures var rest := SegmentId(n, stamp)[4..]; var k := UnderscoreIndex(rest);
      && 0 < k < |rest|
      && (forall j :: 0 <= j < k ==> IsDigit(rest[..k][j]))
      && ParseNat(rest[..k]) == n
      && (rest[0] != '0' || k == 1)
      && rest[k + 1..] == stamp
  {
    var digits := NatToString(n);
    var id := SegmentId(n, stamp);
    DigitsEndAtUnderscore(digits, stamp);
    ParseOfToString(n);
    assert id[4..] == digits + "_" + stamp;
    assert id[4..][..|digits|] == digits;
  }

  /** Two segment ids with different counters differ, whatever the clock
      read, and no counted segment id is the final segment's id. */
  lemma SegmentIdsDistinct(n: nat, a: string, m: nat, b: string)
    ensures SegmentId(n, a) == SegmentId(m, b) ==> n == m
    ensures SegmentId(n, a) != FinalSegmentId
  {
    SegmentIdReadsBack(n, a);
    SegmentIdReadsBack(m, b);
    assert FinalSegmentId[4] == 'f';
  }

  /** The index of the first `_` in `s`, or `|s|` when there is none. */
  function UnderscoreIndex(s: string): (k: nat)
    ensures k <= |s|
    decreases |s|
  {
    if |s| == 0 || s[0] == '_' then 0 else 1 + UnderscoreIndex(s[1..])
  }

  /** In `digits + "_" + rest` the first `_` comes right after the digits. */
  lemma {:induction false} DigitsEndAtUnderscore(digits: string, rest: string)
    requires forall k :: 0 <= k < |digits| ==> IsDigit(digits[k])
    ensures UnderscoreIndex(digits + "_" + rest) == |digits|
    decreases |digits|
  {
    if |digits| > 0 {
      assert (digits + "_" + rest)[1..] == digits[1..] + "_" + rest;
      DigitsEndAtUnderscore(digits[1..], rest);
    }
  }

  /** Whether a submission is the segment flushed on disconnect. */
  predicate IsFinalSegment(sub: Submission) {
    sub.segmentId == FinalSegmentId
  }

  /** A fresh connection, right after `websocket.accept()`. */
  const Start: Session := Session([], 0, [], [], 0, Receiving)

  /** The reply the loop sends for one submission: the worker's text as a
      `chunk_complete` message, or, when the worker raises, the
      `server_error` message of the outer handler. */
  function Reply(work: Worker, sub: Submission): (m: Message)
    ensures !m.FinalChunkComplete?
    ensures m.ChunkComplete? <==> work(sub.payload, sub.segmentId).Ok?
    ensures m.ChunkComplete? ==> m.text == work(sub.payload, sub.segmentId).value
    ensures m.ServerError? ==>
      && |m.error| >= |ServerErrorPrefix|
      && m.error[..|ServerErrorPrefix|] == ServerErrorPrefix
      && m.error[|ServerErrorPrefix|..] == work(sub.payload, sub.segmentId).error
  {
    match work(sub.payload, sub.segmentId)
    case Ok(text) => ChunkComplete(text)
    case Err(e) =>
      assert (ServerErrorPrefix + e)[|ServerErrorPrefix|..] == e;
      ServerError(ServerErrorPrefix + e)
  }

  function Replies(work: Worker, subs: seq<Submission>): (ms: seq<Message>)
    ensures |ms| == |subs|
    ensures forall i :: 0 <= i < |subs| ==> ms[i] == Reply(work, subs[i])
    decreases |subs|
  {
    if |subs| == 0 then [] else Replies(work, subs[..|subs| - 1]) + [Reply(work, subs[|subs| - 1])]
  }

  /** One event handled by the receiving session. A non-empty frame is
      appended to the buffer, the counter is advanced, the buffer's whole
      contents become one segment and the buffer is reset before the worker
      runs; the worker's text is sent as `chunk_complete`, its exception
      ends the session with `server_error`. An empty frame changes nothing.
      A disconnect flushes a non-empty buffer as the final segment and
      swallows that segment's failure. Any other fault sends `server_error`;
      the close that follows it raises (its status code is an undefined
      name) and that is swallowed, so it has no observable effect. */
  function Receive(s: Session, e: Event, work: Worker, clock: Clock): (s': Session)
    requires s.phase == Receiving
    ensures s'.consumed == s.consumed + 1
    ensures s'.buffer == (if e.Frame? && e.data != [] then [] else s.buffer)
    ensures s'.counter == s.counter + (if e.Frame? && e.data != [] then 1 else 0)
    ensures s'.phase == Receiving ==> e.Frame?
    ensures s.submitted <= s'.submitted && |s'.submitted| <= |s.submitted| + 1
    ensures s.sent <= s'.sent && |s'.sent| <= |s.sent| + 1
    ensures e.Frame? && e.data == [] ==> s' == s.(consumed := s.consumed + 1)
  {
    match e
    case Frame(data) =>
      if |data| == 0 then s.(consumed := s.consumed + 1)
      else
        var n := s.counter + 1;
        var id := SegmentId(n, clock(n));
        var content := s.buffer + data;
        var s1 := s.(buffer := [], counter := n,
                     submitted := s.submitted + [Submission(content, id)],
                     consumed := s.consumed + 1);
        (match work(content, id)
         case Ok(text) => s1.(sent := s.sent + [ChunkComplete(text)])
         case Err(err) => s1.(sent := s.sent + [ServerError(ServerErrorPrefix + err)], phase := Aborted))
    case Disconnect =>
      var s1 := s.(consumed := s.consumed + 1, phase := Disconnected);
      if |s.buffer| == 0 then s1
      else
        var s2 := s1.(submitted := s.submitted + [Submission(s.buffer, FinalSegmentId)]);
        (match work(s.buffer, FinalSegmentId)
         case Ok(text) => s2.(sent := s.sent + [FinalChunkComplete(text)])
         case Err(_) => s2)
    case Fault(reason) =>
      s.(consumed := s.consumed + 1,
         sent := s.sent + [ServerError(ServerErrorPrefix + reason)],
         phase := Aborted)
  }

  /** The session after the connection has produced `events`. Once the
      handler has left its loop, later events are never read. */
  function Run(events: seq<Event>, work: Worker, clock: Clock): (s: Session)
    ensures s.consumed <= |events|
    ensures s.phase == Receiving ==> s.consumed == |events|
    ensures s.phase == Disconnected ==> s.consumed >= 1 && events[s.consumed - 1] == Disconnect
    ensures s.phase == Aborted ==>
      && s.consumed >= 1
      && (events[s.consumed - 1].Fault? || (events[s.consumed - 1].Frame? && events[s.consumed - 1].data != []))
    ensures forall k :: 0 <= k < s.consumed - 1 ==> events[k].Frame?
    ensures s.phase == Receiving ==> forall k :: 0 <= k < |events| ==> events[k].Frame?
    ensures s.buffer == []
    decreases |events|
  {
    if |events| == 0 then Start
    else
      var prev := Run(events[..|events| - 1], work, clock);
      if prev.phase != Receiving then prev
      else Receive(prev, events[|events| - 1], work, clock)
  }

  // ---------------------------------------------------------------------
  // Reference descriptions of the input trace
  // ---------------------------------------------------------------------

  /** The contents of the non-empty frames, in order. */
  function NonEmptyFrames(events: seq<Event>): seq<seq<byte>>
    decreases |events|
  {
    if |events| == 0 then []
    else
      var e := events[|events| - 1];
      NonEmptyFrames(events[..|events| - 1]) + (if e.Frame? && e.data != [] then [e.data] else [])
  }

  /** Every byte received in frames, in order. */
  function Received(events: seq<Event>): seq<byte>
    decreases |events|
  {
    if |events| == 0 then []
    else
      var e := events[|events| - 1];
      Received(events[..|events| - 1]) + (if e.Frame? then e.data else [])
  }

  function Concat(xss: seq<seq<byte>>): seq<byte>
    decreases |xss|
  {
    if |xss| == 0 then [] else Concat(xss[..|xss| - 1]) + xss[|xss| - 1]
  }

  function Payloads(subs: seq<Submission>): (ps: seq<seq<byte>>)
    ensures |ps| == |subs|
    ensures forall i :: 0 <= i < |subs| ==> ps[i] == subs[i].payload
    decreases |subs|
  {
    if |subs| == 0 then [] else Payloads(subs[..|subs| - 1]) + [subs[|subs| - 1].payload]
  }

  /** Empty frames contribute no bytes. */
  lemma {:induction false} NonEmptyFramesHoldAllBytes(events: seq<Event>)
    ensures Concat(NonEmptyFrames(events)) == Received(events)
    decreases |events|
  {
    if |events| > 0 {
      var init := events[..|events| - 1];
      NonEmptyFramesHoldAllBytes(init);
      var e := events[|events| - 1];
      if e.Frame? && e.data != [] {
        var xs := NonEmptyFrames(init) + [e.data];
        assert xs[..|xs| - 1] == NonEmptyFrames(init);
      } else {
        assert NonEmptyFrames(events) == NonEmptyFrames(init);
      }
    }
  }

  // ---------------------------------------------------------------------
  // One step of the loop
  // ---------------------------------------------------------------------

  /** A non-empty frame makes exactly one submission, of the buffer followed
      by the frame, under the next counter value, and sends exactly the
      reply to it; the session goes on exactly when the worker returned. */
  lemma FrameStep(s: Session, data: seq<byte>, work: Worker, clock: Clock)
    requires s.phase == Receiving && data != []
    ensures var r := Receive(s, Frame(data), work, clock);
      var sub := Submission(s.buffer + data, SegmentId(s.counter + 1, clock(s.counter + 1)));
      && r.submitted == s.submitted + [sub]
      && r.sent == s.sent + [Reply(work, sub)]
      && r.counter == s.counter + 1
      && (r.phase == Receiving <==> work(sub.payload, sub.segmentId).Ok?)
      && (r.phase == Receiving || r.phase == Aborted)
  {
  }

  /** Any other event submits nothing when the buffer is empty; only a fault
      sends a message, the `server_error` one. */
  lemma OtherStep(s: Session, e: Event, work: Worker, clock: Clock)
    requires s.phase == Receiving && s.buffer == [] && !(e.Frame? && e.data != [])
    ensures var r := Receive(s, e, work, clock);
      && r.submitted == s.submitted
      && r.counter == s.counter
      && r.sent == s.sent + (if e.Fault? then [ServerError(ServerErrorPrefix + e.reason)] else [])
      && (r.phase == Aborted <==> e.Fault?)
  {
  }

  // ---------------------------------------------------------------------
  // Properties of a session
  // ---------------------------------------------------------------------

  /** The submissions are the non-empty frames read, one each, in order,
      and the counter counts them. */
  predicate SubmitsFrames(events: seq<Event>, r: Session) {
    && r.consumed <= |events|
    && Payloads(r.submitted) == NonEmptyFrames(events[..r.consumed])
    && r.counter == |r.submitted|
  }

  /** The i-th submission carries the id `seg_{i+1}_<clock>`. */
  predicate NumberedIds(r: Session, clock: Clock) {
    forall i :: 0 <= i < |r.submitted| ==> r.submitted[i].segmentId == SegmentId(i + 1, clock(i + 1))
  }

  /** Whether the session ended on a fault read from the connection. */
  predicate EndedByFault(events: seq<Event>, r: Session)
    requires r.consumed <= |events|
  {
    r.phase == Aborted && r.consumed >= 1 && events[r.consumed - 1].Fault?
  }

  /** The messages are the replies to the submissions, in order, followed
      by one `server_error` message if a fault ended the session. */
  predicate SendsReplies(events: seq<Event>, work: Worker, r: Session)
    requires r.consumed <= |events|
  {
    if EndedByFault(events, r) then
      r.sent == Replies(work, r.submitted) + [ServerError(ServerErrorPrefix + events[r.consumed - 1].reason)]
    else
      r.sent == Replies(work, r.submitted)
  }

  predicate Succeeds(work: Worker, sub: Submission) {
    work(sub.payload, sub.segmentId).Ok?
  }

  /** Every submission but the last succeeded, and the last one failed
      exactly when a frame (not a fault) aborted the session. */
  predicate FailureAborts(events: seq<Event>, work: Worker, r: Session)
    requires r.consumed <= |events|
  {
    && (forall i :: 0 <= i < |r.submitted| - 1 ==> Succeeds(work, r.submitted[i]))
    && ((r.phase == Aborted && !EndedByFault(events, r)) <==>
          (|r.submitted| > 0 && !Succeeds(work, r.submitted[|r.submitted| - 1])))
  }

  /** Nothing was ever flushed on disconnect. */
  predicate NoFinalOutput(r: Session) {
    && (forall i :: 0 <= i < |r.sent| ==> !r.sent[i].FinalChunkComplete?)
    && (forall i :: 0 <= i < |r.submitted| ==> !IsFinalSegment(r.submitted[i]))
  }

  /** A `server_error` message is the last message exactly when the session
      is aborted, and every other message is a `chunk_complete`. */
  predicate ServerErrorLast(r: Session) {
    && (r.phase == Aborted <==> |r.sent| > 0 && r.sent[|r.sent| - 1].ServerError?)
    && (forall i :: 0 <= i < |r.sent| - 1 ==> r.sent[i].ChunkComplete?)
    && (r.phase != Aborted ==> forall i :: 0 <= i < |r.sent| ==> r.sent[i].ChunkComplete?)
  }

  /** Everything the loop keeps true, gathered so that one induction over
      the events establishes all of it. */
  predicate Invariant(events: seq<Event>, work: Worker, clock: Clock, r: Session) {
    && SubmitsFrames(events, r)
    && r.buffer == []
    && (r.phase == Receiving ==> r.consumed == |events|)
    && NumberedIds(r, clock)
    && SendsReplies(events, work, r)
    && FailureAborts(events, work, r)
    && NoFinalOutput(r)
  }

  lemma NonEmptyFramesSnoc(events: seq<Event>, e: Event)
    ensures NonEmptyFrames(events + [e])
         == NonEmptyFrames(events) + (if e.Frame? && e.data != [] then [e.data] else [])
  {
    assert (events + [e])[..|events|] == events;
  }

  lemma PayloadsSnoc(subs: seq<Submission>, sub: Submission)
    ensures Payloads(subs + [sub]) == Payloads(subs) + [sub.payload]
  {
    assert (subs + [sub])[..|subs|] == subs;
  }

  lemma RepliesSnoc(work: Worker, subs: seq<Submission>, sub: Submission)
    ensures Replies(work, subs + [sub]) == Replies(work, subs) + [Reply(work, sub)]
  {
    assert (subs + [sub])[..|subs|] == subs;
  }

  /** One read keeps the submissions in step with the non-empty frames. */
  lemma StepSubmitsFrames(events: seq<Event>, e: Event, work: Worker, clock: Clock, s: Session)
    requires s.phase == Receiving && s.buffer == [] && s.consumed == |events|
    requires SubmitsFrames(events, s)
    ensures SubmitsFrames(events + [e], Receive(s, e, work, clock))
  {
    var r := Receive(s, e, work, clock);
    assert events[..s.consumed] == events;
    assert (events + [e])[..r.consumed] == events + [e];
    NonEmptyFramesSnoc(events, e);
    if e.Frame? && e.data != [] {
      FrameStep(s, e.data, work, clock);
      assert s.buffer + e.data == e.data;
      PayloadsSnoc(s.submitted, r.submitted[|r.submitted| - 1]);
    } else {
      OtherStep(s, e, work, clock);
    }
  }

  /** One read numbers its submission with the next counter value. */
  lemma StepNumberedIds(e: Event, work: Worker, clock: Clock, s: Session)
    requires s.phase == Receiving && s.buffer == [] && s.counter == |s.submitted|
    requires NumberedIds(s, clock)
    ensures NumberedIds(Receive(s, e, work, clock), clock)
  {
    var r := Receive(s, e, work, clock);
    if e.Frame? && e.data != [] {
      FrameStep(s, e.data, work, clock);
      forall i | 0 <= i < |r.submitted|
        ensures r.submitted[i].segmentId == SegmentId(i + 1, clock(i + 1))
      {
        assert i < |s.submitted| ==> r.submitted[i] == s.submitted[i];
      }
    } else {
      OtherStep(s, e, work, clock);
    }
  }

  /** One read sends the reply to its submission, or the fault's
      `server_error`. */
  lemma StepSendsReplies(events: seq<Event>, e: Event, work: Worker, clock: Clock, s: Session)
    requires s.phase == Receiving && s.buffer == [] && s.consumed == |events|
    requires SendsReplies(events, work, s)
    ensures (Receive(s, e, work, clock).consumed <= |events + [e]|)
    ensures SendsReplies(events + [e], work, Receive(s, e, work, clock))
  {
    var r := Receive(s, e, work, clock);
    assert s.sent == Replies(work, s.submitted);
    assert r.consumed == |events + [e]| && (events + [e])[r.consumed - 1] == e;
    if e.Frame? && e.data != [] {
      FrameStep(s, e.data, work, clock);
      RepliesSnoc(work, s.submitted, r.submitted[|r.submitted| - 1]);
    } else {
      OtherStep(s, e, work, clock);
    }
  }

  /** One read either gets its submission's text back and goes on, or
      leaves the loop. */
  lemma StepFailureAborts(events: seq<Event>, e: Event, work: Worker, clock: Clock, s: Session)
    requires s.phase == Receiving && s.buffer == [] && s.consumed == |events|
    requires FailureAborts(events, work, s)
    ensures (Receive(s, e, work, clock).consumed <= |events + [e]|)
    ensures FailureAborts(events + [e], work, Receive(s, e, work, clock))
  {
    var r := Receive(s, e, work, clock);
    assert forall i :: 0 <= i < |s.submitted| ==> Succeeds(work, s.submitted[i]);
    assert r.consumed == |events + [e]| && (events + [e])[r.consumed - 1] == e;
    if e.Frame? && e.data != [] {
      FrameStep(s, e.data, work, clock);
      forall i | 0 <= i < |r.submitted| - 1 ensures Succeeds(work, r.submitted[i]) {
        assert r.submitted[i] == s.submitted[i];
      }
    } else {
      OtherStep(s, e, work, clock);
    }
  }

  /** With an empty buffer no read makes a final submission or message. */
  lemma StepNoFinalOutput(e: Event, work: Worker, clock: Clock, s: Session)
    requires s.phase == Receiving && s.buffer == []
    requires NoFinalOutput(s)
    ensures NoFinalOutput(Receive(s, e, work, clock))
  {
    var r := Receive(s, e, work, clock);
    if e.Frame? && e.data != [] {
      FrameStep(s, e.data, work, clock);
      var sub := r.submitted[|r.submitted| - 1];
      SegmentIdsDistinct(s.counter + 1, clock(s.counter + 1), 0, "");
      assert !IsFinalSegment(sub);
      assert !Reply(work, sub).FinalChunkComplete?;
      forall i | 0 <= i < |r.submitted| ensures !IsFinalSegment(r.submitted[i]) {
        assert i < |s.submitted| ==> r.submitted[i] == s.submitted[i];
      }
      forall i | 0 <= i < |r.sent| ensures !r.sent[i].FinalChunkComplete? {
        assert i < |s.sent| ==> r.sent[i] == s.sent[i];
      }
    } else {
      OtherStep(s, e, work, clock);
      forall i | 0 <= i < |r.sent| ensures !r.sent[i].FinalChunkComplete? {
        assert i < |s.sent| ==> r.sent[i] == s.sent[i];
      }
    }
  }

  /** A receiving session keeps the invariant across one read. */
  lemma InvariantStep(events: seq<Event>, e: Event, work: Worker, clock: Clock, s: Session)
    requires s.phase == Receiving && Invariant(events, work, clock, s)
    ensures Invariant(events + [e], work, clock, Receive(s, e, work, clock))
  {
    StepSubmitsFrames(events, e, work, clock, s);
    StepNumberedIds(e, work, clock, s);
    StepSendsReplies(events, e, work, clock, s);
    StepFailureAborts(events, e, work, clock, s);
    StepNoFinalOutput(e, work, clock, s);
  }

  /** A stopped session keeps the invariant when more events arrive, since
      it reads none of them. */
  lemma InvariantStopped(events: seq<Event>, e: Event, work: Worker, clock: Clock, s: Session)
    requires s.phase != Receiving && Invariant(events, work, clock, s)
    ensures Invariant(events + [e], work, clock, s)
  {
    var all := events + [e];
    assert all[..s.consumed] == events[..s.consumed];
    assert s.consumed >= 1 ==> all[s.consumed - 1] == events[s.consumed - 1];
    assert EndedByFault(all, s) == EndedByFault(events, s);
  }

  /** Every session the handler can reach satisfies the invariant. */
  lemma {:induction false} RunInvariant(events: seq<Event>, work: Worker, clock: Clock)
    ensures Invariant(events, work, clock, Run(events, work, clock))
    decreases |events|
  {
    if |events| == 0 {
      assert Invariant(events, work, clock, Start);
    } else {
      var init, e := events[..|events| - 1], events[|events| - 1];
      assert events == init + [e];
      var prev := Run(init, work, clock);
      RunInvariant(init, work, clock);
      if prev.phase == Receiving {
        InvariantStep(init, e, work, clock, prev);
      } else {
        InvariantStopped(init, e, work, clock, prev);
      }
    }
  }

  /** Each non-empty frame read makes exactly one submission, whose payload
      is that frame's bytes, and the counter counts them. */
  lemma SubmissionsFollowFrames(events: seq<Event>, work: Worker, clock: Clock)
    ensures SubmitsFrames(events, Run(events, work, clock))
  {
    RunInvariant(events, work, clock);
  }

  /** The i-th submission carries the id `seg_{i+1}_<clock>`. */
  lemma SubmissionIds(events: seq<Event>, work: Worker, clock: Clock)
    ensures NumberedIds(Run(events, work, clock), clock)
  {
    RunInvariant(events, work, clock);
  }

  /** No byte is lost or duplicated: the submitted payloads, concatenated,
      are exactly the bytes of the frames the session read. */
  lemma ByteConservation(events: seq<Event>, work: Worker, clock: Clock)
    ensures Run(events, work, clock).consumed <= |events|
    ensures Concat(Payloads(Run(events, work, clock).submitted))
         == Received(events[..Run(events, work, clock).consumed])
  {
    SubmissionsFollowFrames(events, work, clock);
    var r := Run(events, work, clock);
    assert SubmitsFrames(events, r);
    NonEmptyFramesHoldAllBytes(events[..r.consumed]);
  }

  /** Segment ids within one session are pairwise distinct. */
  lemma SegmentIdsUnique(events: seq<Event>, work: Worker, clock: Clock)
    ensures forall i, j :: 0 <= i < j < |Run(events, work, clock).submitted| ==>
      Run(events, work, clock).submitted[i].segmentId != Run(events, work, clock).submitted[j].segmentId
  {
    SubmissionIds(events, work, clock);
    var r := Run(events, work, clock);
    assert NumberedIds(r, clock);
    forall i, j | 0 <= i < j < |r.submitted|
      ensures r.submitted[i].segmentId != r.submitted[j].segmentId
    {
      SegmentIdsDistinct(i + 1, clock(i + 1), j + 1, clock(j + 1));
    }
  }

  /** The messages are the replies to the submissions, in submission order;
      a fault read from the connection adds one `server_error` message at
      the end. */
  lemma MessagesFollowSubmissions(events: seq<Event>, work: Worker, clock: Clock)
    ensures SendsReplies(events, work, Run(events, work, clock))
  {
    RunInvariant(events, work, clock);
  }

  /** Every submission but the last got its text back; the last one failed
      exactly when it aborted the session. */
  lemma OnlyLastSubmissionMayFail(events: seq<Event>, work: Worker, clock: Clock)
    ensures FailureAborts(events, work, Run(events, work, clock))
  {
    RunInvariant(events, work, clock);
  }

  /** A `server_error` message is sent exactly when the session is aborted,
      and then it is the last message and the only one that is not a
      `chunk_complete`. */
  lemma ServerErrorIsLast(events: seq<Event>, work: Worker, clock: Clock)
    ensures ServerErrorLast(Run(events, work, clock))
  {
    MessagesFollowSubmissions(events, work, clock);
    OnlyLastSubmissionMayFail(events, work, clock);
    var r := Run(events, work, clock);
    assert SendsReplies(events, work, r) && FailureAborts(events, work, r);
    var replies := Replies(work, r.submitted);
    assert forall i :: 0 <= i < |replies| - 1 ==> replies[i].ChunkComplete?;
    assert r.phase != Aborted ==> forall i :: 0 <= i < |replies| ==> replies[i].ChunkComplete?;
  }

  /** After the handler has left its loop, nothing more is read: further
      events leave the session exactly as it was. */
  lemma {:induction false} StoppedSessionIgnoresLaterEvents(events: seq<Event>, more: seq<Event>,
                                                            work: Worker, clock: Clock)
    requires Run(events, work, clock).phase != Receiving
    ensures Run(events + more, work, clock) == Run(events, work, clock)
    decreases |more|
  {
    if |more| == 0 {
      assert events + more == events;
    } else {
      var m' := more[..|more| - 1];
      StoppedSessionIgnoresLaterEvents(events, m', work, clock);
      var all := events + more;
      assert all[..|all| - 1] == events + m';
      assert Run(all, work, clock) == Run(events + m', work, clock);
    }
  }

  /** An empty frame causes no submission, no message and no counter
      change; only the read itself is counted. */
  lemma EmptyFrameChangesNothing(events: seq<Event>, work: Worker, clock: Clock)
    requires Run(events, work, clock).phase == Receiving
    ensures Run(events + [Frame([])], work, clock)
         == Run(events, work, clock).(consumed := |events| + 1)
  {
    assert (events + [Frame([])])[..|events|] == events;
  }

  /** The buffer is emptied on every non-empty frame, so a disconnect always
      finds it empty: the final flush never submits anything and no
      `final_chunk_complete` message is ever sent. */
  lemma NoFinalFlush(events: seq<Event>, work: Worker, clock: Clock)
    ensures NoFinalOutput(Run(events, work, clock))
  {
    RunInvariant(events, work, clock);
  }

  /** The disconnect branch on a non-empty buffer, which `NoFinalFlush`
      shows no session reaches: the buffer goes to the worker as the final
      segment, whose text is sent as `final_chunk_complete`, and whose
      failure is swallowed without any message. */
  lemma FinalFlushOutcome(s: Session, work: Worker, clock: Clock)
    requires s.phase == Receiving && s.buffer != []
    ensures var s' := Receive(s, Disconnect, work, clock);
      && s'.phase == Disconnected
      && s'.submitted == s.submitted + [Submission(s.buffer, FinalSegmentId)]
      && (work(s.buffer, FinalSegmentId).Ok? ==>
            s'.sent == s.sent + [FinalChunkComplete(work(s.buffer, FinalSegmentId).value)])
      && (work(s.buffer, FinalSegmentId).Err? ==> s'.sent == s.sent)
  {
  }
}
