/** The stream session of main.py:101-166 with the test-mode adapter of
    main.py:57-92 as its segment worker, which is how the handler wires
    them: each non-empty frame runs `convert_and_transcribe_sync` on the
    buffer and the segment id. The state of the test file and the outcome of
    the recogniser process are inputs, given per segment id; since the ids
    of one session are pairwise distinct, this lets every call see its own
    environment. */
module Endpoint {
  import opened Basics
  import opened PyStr
  import opened Transcribe
  import opened StreamSession

  /** The test file as each call finds it. */
  type Files = string -> TestFile

  /** What the recogniser process does in each call. */
  type Runs = string -> RecogniserRun

  /** Whether a `chunk_complete` text is one the adapter can return: the
      fixed missing-file message, or the success prefix followed by a
      trimmed transcript without `:` or line break. */
  predicate AdapterText(text: string) {
    || text == MissingTestFileMessage
    || (&& |text| >= |SuccessPrefix|
        && text[..|SuccessPrefix|] == SuccessPrefix
        && ':' !in text[|SuccessPrefix|..]
        && '\n' !in text[|SuccessPrefix|..]
        && Trimmed(text[|SuccessPrefix|..]))
  }

  /** The worker the handler runs: the adapter's return value is the text,
      its raised failure is carried as `str(e)`. Each call sees the test
      file and the recogniser outcome of its own segment id: without a
      usable test file it returns the missing-file message whatever the
      recogniser would do, it raises exactly when the recogniser did not
      exit with status 0, and whatever it returns is a text the adapter
      can produce. */
  function TestModeWorker(files: Files, runs: Runs): (w: Worker)
    ensures forall audio, id :: !Usable(files(id)) ==> w(audio, id) == Ok(MissingTestFileMessage)
    ensures forall audio, id :: w(audio, id).Err? <==>
      Usable(files(id)) && !(runs(id).Exited? && runs(id).returnCode == 0)
    ensures forall audio, id :: w(audio, id).Ok? ==> AdapterText(w(audio, id).value)
  {
    (audio: seq<byte>, id: string) =>
      match ConvertAndTranscribe(audio, id, files(id), runs(id))
      case Ok(text) => Ok(text)
      case Err(failure) => Err(Describe(failure))
  }

  /** The reply to one segment under the test-mode worker: the missing-file
      message exactly when the test file is unusable, a `server_error`
      carrying the failure's text exactly when the recogniser did not exit
      with status 0, and otherwise the transcript after the success prefix. */
  lemma ReplyOutcome(files: Files, runs: Runs, sub: Submission)
    ensures var m := Reply(TestModeWorker(files, runs), sub);
      var f, run := files(sub.segmentId), runs(sub.segmentId);
      && (m == ChunkComplete(MissingTestFileMessage) <==> !Usable(f))
      && (m.ServerError? <==> Usable(f) && !(run.Exited? && run.returnCode == 0))
      && (m.ServerError? ==>
            m.error == ServerErrorPrefix
                       + Describe(ConvertAndTranscribe(sub.payload, sub.segmentId, f, run).error))
      && (Usable(f) && run.Exited? && run.returnCode == 0 ==>
            m == ChunkComplete(SuccessPrefix + ExtractTranscript(run.stdout)))
  {
    var f, run := files(sub.segmentId), runs(sub.segmentId);
    var r := ConvertAndTranscribe(sub.payload, sub.segmentId, f, run);
    if Usable(f) && run.Exited? && run.returnCode == 0 {
      assert r == Ok(SuccessPrefix + ExtractTranscript(run.stdout));
    }
  }

  /** In a whole session under the test-mode worker, every `chunk_complete`
      message carries a text the adapter can return. */
  lemma SessionTexts(events: seq<Event>, files: Files, runs: Runs, clock: Clock)
    ensures var r := Run(events, TestModeWorker(files, runs), clock);
      forall i :: 0 <= i < |r.sent| && r.sent[i].ChunkComplete? ==> AdapterText(r.sent[i].text)
  {
    var work := TestModeWorker(files, runs);
    MessagesFollowSubmissions(events, work, clock);
    var r := Run(events, work, clock);
    assert SendsReplies(events, work, r);
    forall i | 0 <= i < |r.sent| && r.sent[i].ChunkComplete?
      ensures AdapterText(r.sent[i].text)
    {
      if i < |r.submitted| {
        assert r.sent[i] == Reply(work, r.submitted[i]);
      }
    }
  }

  /** Without a usable test file no frame can end the session: every
      segment is answered with the missing-file message, and only a fault
      from the connection adds a `server_error`. */
  lemma SessionWithoutTestFile(events: seq<Event>, files: Files, runs: Runs, clock: Clock)
    requires forall id :: !Usable(files(id))
    ensures var r := Run(events, TestModeWorker(files, runs), clock);
      && (r.phase == Aborted ==> EndedByFault(events, r))
      && |r.sent| == |r.submitted| + (if r.phase == Aborted then 1 else 0)
      && (forall i :: 0 <= i < |r.submitted| ==> r.sent[i] == ChunkComplete(MissingTestFileMessage))
  {
    var work := TestModeWorker(files, runs);
    MessagesFollowSubmissions(events, work, clock);
    OnlyLastSubmissionMayFail(events, work, clock);
    var r := Run(events, work, clock);
    assert SendsReplies(events, work, r) && FailureAborts(events, work, r);
    assert forall i :: 0 <= i < |r.submitted| ==>
      Succeeds(work, r.submitted[i]) && Reply(work, r.submitted[i]) == ChunkComplete(MissingTestFileMessage);
  }
}
