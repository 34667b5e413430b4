# Streaming transcription server — a Dafny model of its core

The server accepts a WebSocket connection, receives binary audio frames,
hands each one to a blocking "segment worker", and sends the worker's text
back as a JSON message. In `main.py` the worker is a diagnostic "test
mode" adapter. It ignores the audio it is given. Instead it runs the
whisper.cpp recogniser on a fixed file, `/app/test.wav`, and pulls one line
of text out of the recogniser's standard output.

The model has six modules:

- `Basics` (basics.dfy): bytes and a `Result` type.
- `PyStr` (pystr.dfy): Python's `str.strip()`, `str.split(sep)` and `[-1]`.
  Each is given a reference characterisation and proved to meet it.
- `Decimal` (decimal.dfy): `str(n)` for the segment counter, with its inverse.
- `Transcribe` (transcribe.dfy): `convert_and_transcribe_sync`. This covers
  the transcript extraction and the three-way outcome (fixed message, raised
  failure, success text). The test file's state and the recogniser
  process's outcome are inputs.
- `StreamSession` (session.dfy): `websocket_transcription_endpoint`, as a
  function from the sequence of `receive_bytes()` results to a session
  state. The events are a frame, a disconnect, or any other `Exception`. The state
  records the worker submissions and the messages sent. The worker and the
  clock behind `time.time()` are parameters.
- `Endpoint` (endpoint.dfy): the session with the test-mode adapter plugged
  in as its worker, as the handler wires them.

Five facts about `main.py` shape the model:

- **A failing segment is fatal.** There is no `processing_failed` message.
  An exception from the worker leaves the receive loop. It is answered by
  one `server_error` message, and the session then ends.
- **No transcoding step.** `main.py` has no transcoder and no fixed-size
  segment cut. Every non-empty frame is submitted on its own, together with
  whatever the buffer held, and the buffer is reset before the worker runs.
  So the "final flush" on disconnect never has anything to flush
  (`NoFinalFlush`).
- **Blank output is not a failure.** A recogniser that exits with status 0
  and prints only blank output yields the success prefix followed by an
  empty transcript.
- **The line taken is the last line of the stripped output.** This is the
  last line after trailing whitespace is removed, not a search for the last
  non-empty line.
- **No cleanup.** The adapter writes nothing to disk, so there is nothing to
  clean up (`finally: pass`).

## Model

| member | source | states |
|---|---|---|
| PyStr.Strip | main.py:86 | `strip()` returns a cut of its input with only whitespace before and after it, neither starting nor ending in whitespace |
| PyStr.LStrip | main.py:86 | the result is a suffix of the input, what was removed is all whitespace, and the result is empty or starts with a non-space |
| PyStr.RStrip | main.py:86 | the result is a prefix of the input, what was removed is all whitespace, and the result is empty or ends with a non-space |
| PyStr.StripCharacterized | main.py:86 | `r` is `strip()` of `s` if and only if `s` is whitespace, then `r`, then whitespace, with `r` empty or starting and ending in a non-space |
| PyStr.StripProperties | main.py:86 | `strip()` is trimmed, is a contiguous part of its input, adds no character, and is empty exactly when the input is all whitespace |
| PyStr.StripIdempotent | main.py:86 | stripping twice gives the same as stripping once |
| PyStr.Split | main.py:86 | `split(sep)` gives at least one piece and no piece contains the separator |
| PyStr.SplitThenJoin | main.py:86 | joining the pieces of `split(sep)` with `sep` gives back the input |
| PyStr.JoinThenSplit | main.py:86 | splitting a join of separator-free pieces gives back the pieces |
| PyStr.SplitNoSeparator | main.py:86 | a string without the separator splits into itself alone |
| PyStr.TextAfterLastUnique | main.py:86 | there is at most one separator-free suffix that follows the last separator or covers the whole string |
| PyStr.LastPieceIsTextAfterLast | main.py:86 | `split(sep)[-1]` is the text after the last separator, or the whole string if there is none |
| Decimal.NatToString | main.py:118 | `str(n)` is a non-empty string of digits with no leading zero unless `n` is 0, one digit long exactly when `n < 10` |
| Decimal.ParseOfToString | main.py:118 | reading `str(n)` back as a number gives `n` |
| Decimal.NatToStringInjective | main.py:118 | distinct counters have distinct decimal texts |
| Transcribe.ExtractTranscript | main.py:86 | the extracted transcript contains no `:` and no line break, is trimmed, is a contiguous part of the output, is empty for all-blank output, and is the stripped last line when that line has no `:` |
| Transcribe.ExtractCharacterized | main.py:86 | the transcript is exactly the strip of the text after the last `:` of the text after the last line break of the stripped output |
| Transcribe.ExtractExamples | main.py:86 | concrete outputs: empty and blank output give `""`, and the last line and last `:`-field are the ones taken |
| Transcribe.ConvertAndTranscribe | main.py:57-92 | the fixed missing-file message exactly when the test file is absent or under 100 bytes; a raised failure exactly when the test file is usable and the recogniser did not exit with status 0: a critical one carrying its stderr on a non-zero exit, a timeout naming the recogniser command with 15 seconds (or, when the final wait timed out, the time that was left), a launch error carrying the system's text exactly when the process could not be started; the success prefix exactly when the recogniser exited with status 0, followed by the extracted transcript |
| Transcribe.RecogniserNotInvokedWithoutTestFile | main.py:64-65 | without a usable test file the result does not depend on the recogniser at all |
| Transcribe.IgnoresAudioAndSegmentId | main.py:57-88 | in test mode the result depends neither on the audio nor on the segment id |
| Transcribe.Describe | main.py:69-82 | the text of each raised failure: the critical prefix followed by the recogniser's stderr; for a timeout exactly `Command '<repr of the command list>' timed out after `, then its number of seconds and ` seconds`, with nothing else; a launch error's text as the system gave it |
| Transcribe.CriticalDescribesStderr | main.py:79-82 | the text of the exception raised on a non-zero exit is the fixed prefix followed by the recogniser's stderr, verbatim |
| StreamSession.SegmentId | main.py:117-118 | the id starts with `seg_` and a digit, and ends with `_` followed by the clock text, verbatim |
| StreamSession.SegmentIdReadsBack | main.py:117-118 | reading a segment id back, the digits after `seg_` up to the first `_` have no leading zero unless they are the single digit `0` and give the counter, and the text after that `_` is the clock text |
| StreamSession.Reply | main.py:125-158 | the reply is `chunk_complete` carrying the worker's text exactly when the worker returns; otherwise it is `server_error` whose text is the fixed prefix followed by the worker's error text; it is never `final_chunk_complete` |
| StreamSession.SegmentIdsDistinct | main.py:117-118 | ids with different counters differ whatever the clock reads, and no counted id equals `seg_final` |
| StreamSession.Receive | main.py:112-161 | one read advances the consumed count by one; a non-empty frame empties the buffer and advances the counter by one; an empty frame changes nothing else; at most one submission and one message are added; only a frame keeps the loop running |
| StreamSession.Run | main.py:109-161 | the loop stops at the first disconnect, fault or failed segment: every event read before the last one was a frame, a session still receiving has read only frames, and the buffer is empty in every reachable state |
| StreamSession.RunInvariant | main.py:109-161 | every reachable session keeps all the loop's invariants at once: payloads are the non-empty frames, ids are numbered by the counter, messages are the replies in order, only the last submission may fail, nothing final is output, the buffer is empty |
| StreamSession.InvariantStep | main.py:112-161 | one read by a receiving session preserves those invariants |
| StreamSession.FrameStep | main.py:114-133 | a non-empty frame submits the buffer followed by the frame under the next counter value and sends the reply to it; the loop continues exactly when the worker returned |
| StreamSession.OtherStep | main.py:136-161 | with an empty buffer, a disconnect or fault submits nothing, and only a fault sends a message, the `server_error` one |
| StreamSession.SubmissionsFollowFrames | main.py:112-130 | the submitted payloads are exactly the non-empty frames read, in order, and the counter equals the number of submissions |
| StreamSession.SubmissionIds | main.py:117-118 | the i-th submission has id `seg_{i+1}_<clock>` |
| StreamSession.ByteConservation | main.py:115-121 | the submitted payloads, concatenated, are exactly the bytes of all frames read |
| StreamSession.SegmentIdsUnique | main.py:117-118 | the segment ids of one session are pairwise distinct |
| StreamSession.MessagesFollowSubmissions | main.py:125-158 | the messages are the replies to the submissions in submission order, followed by one `server_error` exactly when a connection fault ended the session |
| StreamSession.OnlyLastSubmissionMayFail | main.py:125-158 | every submission except the last got its text back, and the last one failed exactly when a frame, not a fault, aborted the session |
| StreamSession.ServerErrorIsLast | main.py:154-161 | a `server_error` message is sent exactly when the session is aborted, it is then the last message, and every other message is `chunk_complete` |
| StreamSession.StoppedSessionIgnoresLaterEvents | main.py:109-161 | once the loop has been left, later events leave the session unchanged |
| StreamSession.EmptyFrameChangesNothing | main.py:112-114 | an empty frame adds no submission or message and leaves the counter and buffer as they were |
| StreamSession.NoFinalFlush | main.py:139-152 | no reachable session ever submits `seg_final` or sends `final_chunk_complete` |
| StreamSession.FinalFlushOutcome | main.py:139-152 | on disconnect with a non-empty buffer, the buffer is submitted as `seg_final`; its text goes out as `final_chunk_complete`, and its failure is swallowed without a message |
| Endpoint.TestModeWorker | main.py:125-130 | the worker the handler runs: without a usable test file it returns the missing-file message whatever the recogniser does; it raises exactly when the test file is usable and the recogniser did not exit with status 0; every text it returns is the missing-file message or the success prefix followed by a trimmed transcript without `:` or line break |
| Endpoint.ReplyOutcome | main.py:125-133 | under the test-mode worker, a segment's reply is the missing-file message exactly when the test file is unusable, a `server_error` carrying the failure's text exactly when the recogniser did not exit with status 0, and otherwise the success text |
| Endpoint.SessionTexts | main.py:125-133 | in a whole session under the test-mode worker, every `chunk_complete` text has that shape |
| Endpoint.SessionWithoutTestFile | main.py:64-65 | without a usable test file no frame ends the session, every segment is answered with the missing-file message, and only a connection fault adds a `server_error` |

## Left out

- Web framework setup is not modelled: the FastAPI app, CORS configuration, the `/` health route and creating the upload directory. None of it affects the core's behaviour.
- The recogniser process is not modelled as a process. `Popen`, `communicate(timeout=15)`, `os.path.exists` and `os.path.getsize` are inputs: the test file's state (`TestFile`) and the process outcome (`RecogniserRun`).
- The number of seconds in a timeout's text is an input when the timeout comes from the final wait, because Python then reports the time that was left, a float; otherwise it is the fixed 15.
- Decoding of the recogniser's output is not modelled. `decode('utf-8', errors='ignore')` is taken as already done: stdout and stderr are given as text.
- `time.time()` is a clock parameter. The ids are proved distinct for every clock.
- The thread pool and `run_in_executor` are not modelled. The worker is called synchronously. A pool with one worker serialises the calls anyway.
- The outcome of `send_json` is not modelled: every send is assumed to succeed. A send that raises inside the loop would leave the loop. This is left out because the transport is not part of the model.
- `websocket.close(code=status.WS_1011_INTERNAL_ERROR)` names an undefined `status`. The `NameError` it raises is swallowed, so the connection is never closed with code 1011 and the call has no observable effect. The model has no close step.
- `print` logging and `audio_buffer.close()` are left out because they have no observable effect on the client.
- `cleanup_paths` is never called by the core, so it is not modelled.
- An `asyncio.CancelledError` (for example when the server shuts the connection task down) is a `BaseException`, not an `Exception`. It passes both handlers and only runs the `finally` block, so no message is sent. The model's `Fault` event stands for an `Exception` only, and cancellation is not modelled because it comes from the event loop, which is not part of the model.
- Transcribe.Describe: Python's `repr` of the command list is modelled only for strings without quotes or backslashes, which covers the fixed recogniser command.
