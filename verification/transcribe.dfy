/** The test-mode recogniser adapter `convert_and_transcribe_sync`
    (main.py:57-92): it checks a fixed test waveform, runs the recognition
    engine on it, and turns the engine's standard output into a result
    string. The process launch and the file-system probe are inputs here:
    `TestFile` is what `os.path.exists`/`getsize` report and
    `RecogniserRun` is how `Popen(...).communicate(timeout=15)` ended. */
module Transcribe {
  import opened Basics
  import opened PyStr
  import opened Decimal

  // ---------------------------------------------------------------------
  // Constants of the adapter
  // ---------------------------------------------------------------------

  const TestWavPath: string := "/app/test.wav"

  /** A test file smaller than this many bytes counts as empty. */
  const MinTestFileSize: nat := 100

  /** Seconds `communicate` waits for the engine before raising. */
  const RecogniserTimeoutSeconds: nat := 15

  /** The engine's command line: binary, model, input file, language,
      thread count and processor count. */
  const RecogniserCommand: seq<string> := [
    "/app/main-whisper",
    "-m", "/app/models/ggml-tiny.bin",
    "-f", TestWavPath,
    "-l", "auto",
    "-t", "4", "-p", "0"
  ]

  /** Returned (not raised) when the test file is missing or too small. */
  const MissingTestFileMessage: string :=
    TestErrorPrefix + "test.wav não encontrado ou vazio no contêiner."

  const TestErrorPrefix: string := "ERRO DE TESTE: "

  /** Put in front of the extracted transcript on success. */
  const SuccessPrefix: string := "[TESTE SUCESSO] Texto: "

  /** Put in front of the engine's standard error when it exits non-zero. */
  const CriticalPrefix: string := "ERRO CRÍTICO (TESTE). STDERR: "

  /** How the text of a `TimeoutExpired` ends, after its number of seconds. */
  const SecondsSuffix: string := " seconds"

  // ---------------------------------------------------------------------
  // Inputs standing in for the file system and the engine process
  // ---------------------------------------------------------------------

  /** What the file system reports about the test waveform. */
  datatype TestFile = Missing | Present(size: nat)

  /** How the engine process ended. Its standard output and error are
      given already decoded from UTF-8.

      `TimedOut` is `communicate(timeout=15)` giving up. When the deadline
      passes while the pipes are still being read, the exception carries the
      original timeout, 15. When the pipes have closed but the child has not
      been reaped by the deadline, it comes from the final wait and carries
      the time that was left, a float; that number's text is an input here. */
  datatype RecogniserRun =
    | Exited(returnCode: int, stdout: string, stderr: string)
    | TimedOut(whileWaiting: bool, remaining: string)
    | NotLaunched(reason: string)

  /** The exceptions the adapter lets escape to its caller. */
  datatype Failure =
    | Critical(stderr: string)                       // raised on a non-zero exit
    | Timeout(command: seq<string>, seconds: string) // TimeoutExpired from communicate
    | LaunchError(reason: string)                    // OSError from Popen

  /** Whether the adapter goes on to run the engine. */
  predicate Usable(f: TestFile) {
    f.Present? && f.size >= MinTestFileSize
  }

  // ---------------------------------------------------------------------
  // Text extraction
  // ---------------------------------------------------------------------

  /** `output.strip().split('\n')[-1]`: the last line of the stripped output. */
  function LastLine(output: string): string {
    Last(Split(Strip(output), '\n'))
  }

  /** `output.strip().split('\n')[-1].split(':')[-1].strip()`: the text after
      the last colon of the last line, without surrounding whitespace. */
  function ExtractTranscript(output: string): (t: string)
    ensures ':' !in t && '\n' !in t
    ensures Trimmed(t)
    ensures IsInfix(t, output)
    ensures AllSpace(output) ==> t == []
    ensures ':' !in LastLine(output) ==> t == Strip(LastLine(output))
  {
    var line := LastLine(output);
    var field := Last(Split(line, ':'));
    ExtractFacts(output, line, field);
    Strip(field)
  }

  lemma ExtractFacts(output: string, line: string, field: string)
    requires line == LastLine(output) && field == Last(Split(line, ':'))
    ensures ':' !in Strip(field) && '\n' !in Strip(field)
    ensures Trimmed(Strip(field))
    ensures IsInfix(Strip(field), output)
    ensures AllSpace(output) ==> Strip(field) == []
    ensures ':' !in line ==> field == line
  {
    var stripped := Strip(output);
    StripProperties(output);
    FieldFacts(stripped, line, field);
    StripProperties(field);
    InfixTransitive(Strip(field), field, stripped);
    InfixTransitive(Strip(field), stripped, output);
    if AllSpace(output) {
      StripAllSpace([]);
    }
  }

  /** What `split('\n')[-1]` followed by `split(':')[-1]` leaves of a text. */
  lemma FieldFacts(stripped: string, line: string, field: string)
    requires line == Last(Split(stripped, '\n')) && field == Last(Split(line, ':'))
    ensures ':' !in field && '\n' !in field
    ensures IsInfix(field, stripped)
    ensures ':' !in line ==> field == line
    ensures stripped == [] ==> field == []
  {
    LastPieceIsTextAfterLast(stripped, '\n');
    LastPieceIsTextAfterLast(line, ':');
    AfterLastFacts(stripped, line, field);
  }

  /** The same facts, from the descriptions of the two pieces. */
  lemma AfterLastFacts(stripped: string, line: string, field: string)
    requires IsTextAfterLast(stripped, '\n', line) && IsTextAfterLast(line, ':', field)
    ensures ':' !in field && '\n' !in field
    ensures IsInfix(field, stripped)
    ensures ':' !in line ==> field == line
    ensures stripped == [] ==> field == []
  {
    forall k | 0 <= k < |field| ensures field[k] != '\n' {
      assert field[k] == line[|line| - |field| + k];
    }
    SuffixIsInfix(line, stripped);
    SuffixIsInfix(field, line);
    InfixTransitive(field, line, stripped);
    assert |field| < |line| ==> line[|line| - |field| - 1] in line;
    assert line[0..] == line;
  }

  lemma SuffixIsInfix(t: string, s: string)
    requires |t| <= |s| && t == s[|s| - |t|..]
    ensures IsInfix(t, s)
  {
    assert t == s[|s| - |t|..|s|];
  }

  lemma InfixTransitive(a: string, b: string, c: string)
    requires IsInfix(a, b) && IsInfix(b, c)
    ensures IsInfix(a, c)
  {
    var i, j :| 0 <= i <= j <= |b| && a == b[i..j];
    var k, l :| 0 <= k <= l <= |c| && b == c[k..l];
    assert a == c[k + i..k + j] by {
      forall n | 0 <= n < |a| ensures a[n] == c[k + i + n] {
        assert a[n] == b[i + n];
      }
    }
  }

  /** The extraction described independently of `Split`: given the last
      line of the stripped output and the text after that line's last
      colon, as `IsTextAfterLast` describes them, a string is the extracted
      transcript exactly when it is the strip of that text. */
  lemma ExtractCharacterized(output: string, line: string, field: string, t: string)
    requires IsTextAfterLast(Strip(output), '\n', line)
    requires IsTextAfterLast(line, ':', field)
    ensures IsStripOf(field, t) <==> t == ExtractTranscript(output)
  {
    LastPieceIsTextAfterLast(Strip(output), '\n');
    TextAfterLastUnique(Strip(output), '\n', line, LastLine(output));
    LastPieceIsTextAfterLast(line, ':');
    TextAfterLastUnique(line, ':', field, Last(Split(line, ':')));
    StripCharacterized(field, t);
  }

  /** Evaluates the extraction on a concrete output from its independent
      description: the stripped output, its last line, the text after the
      line's last colon, and the strip of that text. */
  lemma ShowExtract(output: string, stripped: string, line: string, field: string, t: string)
    requires IsStripOf(output, stripped)
    requires IsTextAfterLast(stripped, '\n', line)
    requires IsTextAfterLast(line, ':', field)
    requires IsStripOf(field, t)
    ensures ExtractTranscript(output) == t
  {
    StripFromSpec(output, stripped);
    ExtractCharacterized(output, line, field, t);
  }

  /** Worked cases of the extraction rule: blank output, a trailing newline,
      and several colons on the last line, of which only the text after the
      last one survives. */
  lemma ExtractExamples()
    ensures ExtractTranscript("") == ""
    ensures ExtractTranscript(" \n\t ") == ""
    ensures ExtractTranscript("log\nola mundo\n") == "ola mundo"
    ensures ExtractTranscript("a: b : c \n\n") == "c"
  {
    ExtractExampleBlank();
    ExtractExampleLines();
    ExtractExampleColons();
  }

  lemma ExtractExampleBlank()
    ensures ExtractTranscript("") == ""
    ensures ExtractTranscript(" \n\t ") == ""
  {
    var blank := " \n\t ";
    assert AllSpace(blank) by {
      assert blank[0] == ' ' && blank[1] == '\n' && blank[2] == '\t' && blank[3] == ' ';
    }
    assert AllSpace("");
  }

  lemma ExtractExampleLines()
    ensures ExtractTranscript("log\nola mundo\n") == "ola mundo"
  {
    var line := "ola mundo";
    var stripped := "log\n" + line;
    var out := stripped + "\n";
    assert out == "log\nola mundo\n";
    assert Trimmed(line) by { assert line[0] == 'o' && line[|line| - 1] == 'o'; }
    assert StripsAt(out, stripped, 0, |stripped|) by {
      assert out[..|stripped|] == stripped && out[|stripped|..] == "\n";
      assert stripped[0] == 'l' && stripped[|stripped| - 1] == 'o';
    }
    assert IsTextAfterLast(stripped, '\n', line) by {
      assert stripped[|stripped| - |line|..] == line;
      assert stripped[|stripped| - |line| - 1] == '\n';
      assert forall k :: 0 <= k < |line| ==> line[k] != '\n';
    }
    assert StripsAt(line, line, 0, |line|) by { assert line[0..|line|] == line; }
    ShowExtract(out, stripped, line, line, line);
  }

  lemma ExtractExampleColons()
    ensures ExtractTranscript("a: b : c \n\n") == "c"
  {
    var field := " c";
    var line := "a: b :" + field;
    var out := line + " \n\n";
    assert out == "a: b : c \n\n";
    assert StripsAt(out, line, 0, |line|) by {
      assert out[..|line|] == line && out[|line|..] == " \n\n";
      assert line[0] == 'a' && line[|line| - 1] == 'c';
    }
    assert IsTextAfterLast(line, '\n', line) by {
      assert line[|line| - |line|..] == line;
      assert forall k :: 0 <= k < |line| ==> line[k] != '\n';
    }
    assert IsTextAfterLast(line, ':', field) by {
      assert line[|line| - |field|..] == field;
      assert line[|line| - |field| - 1] == ':';
    }
    assert StripsAt(field, "c", 1, 2) by { assert field[1..2] == "c"; }
    ShowExtract(out, line, line, field, "c");
  }

  // ---------------------------------------------------------------------
  // The result decision
  // ---------------------------------------------------------------------

  /** `convert_and_transcribe_sync(raw_audio_data, segment_id)` in test
      mode. `Ok` is a returned string, `Err` a raised exception. The audio
      and the segment id are accepted and not used.

      The three outcomes are each characterised both ways: the fixed
      message exactly when the test file is unusable, a raised failure
      exactly when the engine did not exit with status 0, and otherwise the
      success prefix followed by the extracted transcript. */
  function ConvertAndTranscribe(rawAudio: seq<byte>, segmentId: string,
                                testFile: TestFile, run: RecogniserRun): (r: Result<string, Failure>)
    ensures r == Ok(MissingTestFileMessage) <==> !Usable(testFile)
    ensures r.Err? <==> Usable(testFile) && !(run.Exited? && run.returnCode == 0)
    ensures r.Err? && r.error.Critical? <==> Usable(testFile) && run.Exited? && run.returnCode != 0
    ensures r.Err? && r.error.Critical? ==> r.error.stderr == run.stderr
    ensures r.Err? && r.error.Timeout? <==> Usable(testFile) && run.TimedOut?
    ensures r.Err? && r.error.Timeout? ==>
      && r.error.command == RecogniserCommand
      && (!run.whileWaiting ==> r.error.seconds == NatToString(RecogniserTimeoutSeconds))
      && (run.whileWaiting ==> r.error.seconds == run.remaining)
    ensures r.Err? && r.error.LaunchError? ==> run.NotLaunched? && r.error.reason == run.reason
    ensures (Usable(testFile) && run.Exited? && run.returnCode == 0) <==>
      (r.Ok? && |r.value| >= |SuccessPrefix| && r.value[..|SuccessPrefix|] == SuccessPrefix)
    ensures r.Ok? && Usable(testFile) ==> r.value[|SuccessPrefix|..] == ExtractTranscript(run.stdout)
  {
    assert MissingTestFileMessage[0] == 'E' && SuccessPrefix[0] == '[';
    if !Usable(testFile) then
      Ok(MissingTestFileMessage)
    else
      match run
      case NotLaunched(reason) => Err(LaunchError(reason))
      case TimedOut(whileWaiting, remaining) =>
        Err(Timeout(RecogniserCommand,
                    if whileWaiting then remaining else NatToString(RecogniserTimeoutSeconds)))
      case Exited(code, out, err) =>
        if code != 0 then Err(Critical(err))
        else
          var t := ExtractTranscript(out);
          assert (SuccessPrefix + t)[|SuccessPrefix|..] == t;
          Ok(SuccessPrefix + t)
  }

  /** The engine is not consulted when the test file is unusable: whatever
      the process would have done, the result is the same. */
  lemma RecogniserNotInvokedWithoutTestFile(rawAudio: seq<byte>, segmentId: string,
                                            testFile: TestFile,
                                            run1: RecogniserRun, run2: RecogniserRun)
    requires !Usable(testFile)
    ensures ConvertAndTranscribe(rawAudio, segmentId, testFile, run1)
         == ConvertAndTranscribe(rawAudio, segmentId, testFile, run2)
         == Ok(MissingTestFileMessage)
  {
  }

  /** In test mode the result depends neither on the audio nor on the
      segment id. */
  lemma IgnoresAudioAndSegmentId(audio1: seq<byte>, id1: string,
                                 audio2: seq<byte>, id2: string,
                                 testFile: TestFile, run: RecogniserRun)
    ensures ConvertAndTranscribe(audio1, id1, testFile, run)
         == ConvertAndTranscribe(audio2, id2, testFile, run)
  {
  }

  // ---------------------------------------------------------------------
  // Exception texts, as `str(e)` renders them
  // ---------------------------------------------------------------------

  /** Python's `repr` of a list of plain strings (no quotes or backslashes
      inside): `['a', 'b']`. */
  function ListRepr(xs: seq<string>): string {
    "[" + ListItemsRepr(xs) + "]"
  }

  function ListItemsRepr(xs: seq<string>): string
    decreases |xs|
  {
    if |xs| == 0 then ""
    else if |xs| == 1 then "'" + xs[0] + "'"
    else "'" + xs[0] + "', " + ListItemsRepr(xs[1..])
  }

  /** How the text of a `TimeoutExpired` for `command` begins, before its
      number of seconds. */
  function TimeoutHead(command: seq<string>): string {
    "Command '" + ListRepr(command) + "' timed out after "
  }

  /** `str(e)` for each failure the adapter raises: the engine's standard
      error can be read back after the fixed prefix, a timeout's text
      names the command and ends with the number of seconds it carries, and
      a launch error's text is the operating system's, carried as it is. */
  function Describe(f: Failure): (d: string)
    ensures f.Critical? ==>
      && |d| >= |CriticalPrefix|
      && d[..|CriticalPrefix|] == CriticalPrefix
      && d[|CriticalPrefix|..] == f.stderr
    ensures f.Timeout? ==>
      && |d| == |TimeoutHead(f.command)| + |f.seconds| + |SecondsSuffix|
      && d[..|TimeoutHead(f.command)|] == TimeoutHead(f.command)
      && d[|d| - |f.seconds| - |SecondsSuffix|..] == f.seconds + SecondsSuffix
    ensures f.LaunchError? ==> d == f.reason
  {
    match f
    case Critical(err) =>
      assert (CriticalPrefix + err)[|CriticalPrefix|..] == err;
      CriticalPrefix + err
    case Timeout(cmd, secs) =>
      var head := TimeoutHead(cmd);
      assert (head + secs + SecondsSuffix)[..|head|] == head;
      assert (head + secs + SecondsSuffix)[|head|..] == secs + SecondsSuffix;
      head + secs + SecondsSuffix
    case LaunchError(reason) => reason
  }

  /** A non-zero exit carries the engine's standard error verbatim after a
      fixed prefix, so the caller can recover it. */
  lemma CriticalDescribesStderr(rawAudio: seq<byte>, segmentId: string,
                                testFile: TestFile, run: RecogniserRun)
    requires Usable(testFile) && run.Exited? && run.returnCode != 0
    ensures var r := ConvertAndTranscribe(rawAudio, segmentId, testFile, run);
      && r.Err?
      && Describe(r.error)[..|CriticalPrefix|] == CriticalPrefix
      && Describe(r.error)[|CriticalPrefix|..] == run.stderr
  {
  }
}
