/** The web handler: the upload gate, the choice of the audio file, and the
    chunked transcription loop that builds the chunk list and the transcript
    shown on the page. A service failure ends the loop and leaves no trace of
    the failing window. */
module WebApp {
  import opened Audio
  import opened Recognition
  import opened Transcript
  import opened Upload

  datatype Option<T> = None | Some(value: T)

  /** A request to the page: a GET, or a POST with or without a named file. */
  datatype Request = Get | Post(upload: Option<string>)

  /** What the handler renders: the transcript (none before a transcription),
      the chunk list, and the audio file it opened (none when it opened none). */
  datatype Page = Page(transcript: Option<string>, chunkTexts: seq<string>, audioPath: Option<string>)

  /** The request carries a file whose name passes the upload gate. */
  predicate Admitted(request: Request)
  {
    request.Post? && request.upload.Some? && Accepted(request.upload.value)
  }

  /** The chunk-list entry of a window the loop keeps. */
  function ChunkText(o: Outcome): string
    requires !o.RequestError?
  {
    if o.Text? then o.text else ""
  }

  /** The chunk list, front to back: one entry per window, ending before the
      first service failure. */
  function ChunkTexts(outcomes: seq<Outcome>): seq<string>
  {
    if outcomes == [] then []
    else match outcomes[0]
      case Text(s) => [s] + ChunkTexts(outcomes[1..])
      case NoMatch => [""] + ChunkTexts(outcomes[1..])
      case RequestError(_) => []
  }

  /** The chunk list has one entry per window before the first failure, and
      entry k is the text of window k ("" when it held no speech). */
  lemma {:induction false} ChunkTextsShape(outcomes: seq<Outcome>)
    ensures |ChunkTexts(outcomes)| == HaltIndex(outcomes)
    ensures forall k :: 0 <= k < |ChunkTexts(outcomes)| ==>
              ChunkTexts(outcomes)[k] == ChunkText(outcomes[k])
  {
    if outcomes != [] && !outcomes[0].RequestError? {
      ChunkTextsShape(outcomes[1..]);
      assert HaltIndex(outcomes) == 1 + HaltIndex(outcomes[1..]);
      forall k | 0 < k < |ChunkTexts(outcomes)|
        ensures ChunkTexts(outcomes)[k] == ChunkText(outcomes[k])
      {
        assert outcomes[1..][k - 1] == outcomes[k];
      }
    }
  }

  /** One more window after an error-free prefix adds its entry, unless it
      failed, in which case the list is unchanged. */
  lemma {:induction false} ChunkTextsSnoc(prefix: seq<Outcome>, o: Outcome)
    requires HaltIndex(prefix) == |prefix|
    ensures ChunkTexts(prefix + [o]) ==
              if o.RequestError? then ChunkTexts(prefix) else ChunkTexts(prefix) + [ChunkText(o)]
  {
    if prefix == [] {
      assert prefix + [o] == [o];
    } else {
      assert (prefix + [o])[0] == prefix[0];
      assert (prefix + [o])[1..] == prefix[1..] + [o];
      ChunkTextsSnoc(prefix[1..], o);
    }
  }

  /** Nothing after a failure reaches the chunk list. */
  lemma {:induction false} ChunkTextsStopAtFailure(prefix: seq<Outcome>, rest: seq<Outcome>)
    requires HaltIndex(prefix) < |prefix|
    ensures ChunkTexts(prefix + rest) == ChunkTexts(prefix)
  {
    if !prefix[0].RequestError? {
      assert (prefix + rest)[1..] == prefix[1..] + rest;
      ChunkTextsStopAtFailure(prefix[1..], rest);
    }
  }

  /** One kept window extends the chunk list of an error-free prefix. */
  lemma {:induction false} KeptWindow(heard: seq<Outcome>, i: nat)
    requires i < |heard| && !heard[i].RequestError?
    requires HaltIndex(heard[..i]) == i
    ensures HaltIndex(heard[..i + 1]) == i + 1
    ensures ChunkTexts(heard[..i + 1]) == ChunkTexts(heard[..i]) + [ChunkText(heard[i])]
  {
    assert heard[..i + 1] == heard[..i] + [heard[i]];
    HaltIndexSnoc(heard[..i], heard[i]);
    ChunkTextsSnoc(heard[..i], heard[i]);
  }

  /** A failing window after an error-free prefix fixes the final chunk list. */
  lemma {:induction false} FailingWindow(heard: seq<Outcome>, i: nat)
    requires i < |heard| && heard[i].RequestError?
    requires HaltIndex(heard[..i]) == i
    ensures ChunkTexts(heard) == ChunkTexts(heard[..i])
  {
    assert heard[..i + 1] + heard[i + 1..] == heard;
    var upTo := heard[..i + 1];
    assert upTo == heard[..i] + [heard[i]];
    HaltIndexSnoc(heard[..i], heard[i]);
    ChunkTextsSnoc(heard[..i], heard[i]);
    ChunkTextsStopAtFailure(upTo, heard[i + 1..]);
  }

  /** The chunked loop of the handler over a file of `duration` whole
      seconds; the recognizer's verdict on window k is `outcomes[k]`. It
      returns the transcript, the chunk list and the windows it handed to
      the recognizer. */
  method TranscribeChunks(duration: nat, outcomes: seq<Outcome>)
    returns (transcript: string, chunkTexts: seq<string>, recognised: seq<Window>)
    requires WindowCount(duration) <= |outcomes|
    ensures chunkTexts == ChunkTexts(outcomes[..WindowCount(duration)])
    ensures transcript == Joined(chunkTexts)
    ensures recognised == Windows(duration)[..Consumed(outcomes[..WindowCount(duration)])]
  {
    ghost var heard := outcomes[..WindowCount(duration)];
    ghost var windows := Windows(duration);
    transcript := "";
    chunkTexts := [];
    recognised := [];
    var offset: nat, idx: nat := 0, 1;
    var cursor: nat := 0;
    while offset < duration
      invariant 1 <= idx && offset == WindowSeconds * (idx - 1)
      invariant idx - 1 <= WindowCount(duration)
      invariant cursor == Min(offset, duration)
      invariant HaltIndex(heard[..idx - 1]) == idx - 1
      invariant chunkTexts == ChunkTexts(heard[..idx - 1])
      invariant transcript == Joined(chunkTexts)
      invariant recognised == windows[..idx - 1]
      decreases WindowCount(duration) - (idx - 1)
    {
      RecordAtWindowOffset(duration, idx - 1);
      var chunk := Record(duration, cursor);
      cursor := chunk.end;
      recognised := recognised + [chunk];
      assert recognised == windows[..idx];
      var text: string;
      match outcomes[idx - 1] {
        case Text(s) =>
          text := s;
        case NoMatch =>
          text := "";
        case RequestError(e) =>
          // The error text is formed and then dropped by the break.
          text := ApiErrorText(e);
          FailingWindow(heard, idx - 1);
          HaltAt(heard, idx - 1);
          break;
      }
      KeptWindow(heard, idx - 1);
      transcript := transcript + (text + " ");
      JoinedSnoc(chunkTexts, text);
      chunkTexts := chunkTexts + [text];
      offset := offset + WindowSeconds;
      idx := idx + 1;
    }
    if offset >= duration {
      assert idx - 1 == WindowCount(duration);
      assert heard[..idx - 1] == heard;
    }
  }

  /** The page handler: a POST whose file name passes the gate is
      transcribed from the file `WavPath` chooses (`duration` is that file's
      length in whole seconds); anything else renders no transcript and an
      empty chunk list. */
  method Index(request: Request, duration: nat, outcomes: seq<Outcome>) returns (page: Page)
    requires WindowCount(duration) <= |outcomes|
    ensures !Admitted(request) ==> page == Page(None, [], None)
    ensures Admitted(request) ==>
              page.audioPath == Some(WavPath(UploadPath(request.upload.value))) &&
              page.chunkTexts == ChunkTexts(outcomes[..WindowCount(duration)]) &&
              page.transcript == Some(Joined(page.chunkTexts))
  {
    page := Page(None, [], None);
    if request.Post? {
      var file := request.upload;
      if file.Some? && Accepted(file.value) {
        var inputPath := UploadPath(file.value);
        var wavPath := WavPath(inputPath);
        var transcript, chunkTexts, _ := TranscribeChunks(duration, outcomes);
        page := Page(Some(transcript), chunkTexts, Some(wavPath));
      }
    }
  }

  /** The chunk list never has more entries than the file has windows, it
      has one per window exactly when no window failed, and an empty file
      gives no entries and an empty transcript. */
  lemma {:induction false} ChunkCountBound(duration: nat, outcomes: seq<Outcome>)
    requires WindowCount(duration) <= |outcomes|
    ensures |ChunkTexts(outcomes[..WindowCount(duration)])| <= WindowCount(duration)
    ensures |ChunkTexts(outcomes[..WindowCount(duration)])| == WindowCount(duration) <==>
              forall k :: 0 <= k < WindowCount(duration) ==> !outcomes[k].RequestError?
    ensures duration == 0 ==>
              ChunkTexts(outcomes[..WindowCount(duration)]) == [] &&
              Joined(ChunkTexts(outcomes[..WindowCount(duration)])) == ""
  {
    var heard := outcomes[..WindowCount(duration)];
    ChunkTextsShape(heard);
    if forall k :: 0 <= k < WindowCount(duration) ==> !outcomes[k].RequestError? {
      assert forall k :: 0 <= k < |heard| ==> heard[k] == outcomes[k];
    }
  }

  /** A window without speech adds "" to the chunk list and a lone space to
      the transcript. */
  lemma {:induction false} NoMatchAddsOnlySpace(prefix: seq<Outcome>)
    requires HaltIndex(prefix) == |prefix|
    ensures ChunkTexts(prefix + [NoMatch]) == ChunkTexts(prefix) + [""]
    ensures Joined(ChunkTexts(prefix + [NoMatch])) == Joined(ChunkTexts(prefix)) + " "
  {
    ChunkTextsSnoc(prefix, NoMatch);
    JoinedSnoc(ChunkTexts(prefix), "");
  }

  /** A failing window, and every window after it, leave the chunk list and
      the transcript as they were before it. */
  lemma {:induction false} FailureLeavesNoTrace(prefix: seq<Outcome>, message: string, rest: seq<Outcome>)
    requires HaltIndex(prefix) == |prefix|
    ensures ChunkTexts(prefix + [RequestError(message)] + rest) == ChunkTexts(prefix)
  {
    HaltIndexSnoc(prefix, RequestError(message));
    ChunkTextsStopAtFailure(prefix + [RequestError(message)], rest);
    ChunkTextsSnoc(prefix, RequestError(message));
  }

  /** Three windows whose third one fails: all three are handed to the
      recognizer, the chunk list holds the first two texts. */
  lemma {:induction false} FailureInThirdWindow(a: string, b: string, message: string)
    ensures Consumed([Text(a), Text(b), RequestError(message)]) == 3
    ensures ChunkTexts([Text(a), Text(b), RequestError(message)]) == [a, b]
    ensures Joined([a, b]) == (a + " ") + (b + " ")
  {
    var os := [Text(a), Text(b), RequestError(message)];
    JoinedSnoc([], a);
    JoinedSnoc([a], b);
    assert [a] + [b] == [a, b];
    assert [] + [a] == [a];
    assert os[1..] == [Text(b), RequestError(message)];
    assert os[1..][1..] == [RequestError(message)];
    assert ChunkTexts(os[1..][1..]) == [];
    assert ChunkTexts(os[1..]) == [b];
  }
}
