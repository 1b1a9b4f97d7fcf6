/** The standalone transcription script: the same chunked loop over the
    fixed file `converted_audio.wav`, but a window without speech leaves a
    placeholder, and a service failure is written into the transcript as
    its last segment before the loop stops. */
module ScriptTranscriber {
  import opened Audio
  import opened Recognition
  import opened Transcript
  import WebApp

  /** The file the script transcribes. */
  const AudioPath: string := "converted_audio.wav"

  /** What a window without intelligible speech contributes. */
  const Unintelligible: string := "[Unintelligible segment]"

  /** The transcript segment of one window. */
  function Segment(o: Outcome): string
  {
    match o
    case Text(s) => s
    case NoMatch => Unintelligible
    case RequestError(m) => ApiErrorText(m)
  }

  /** The segments, front to back: one per window, up to and including the
      first service failure. */
  function Segments(outcomes: seq<Outcome>): seq<string>
  {
    if outcomes == [] then []
    else if outcomes[0].RequestError? then [Segment(outcomes[0])]
    else [Segment(outcomes[0])] + Segments(outcomes[1..])
  }

  /** There is one segment per window handed to the recognizer, and segment
      k is the segment of window k. */
  lemma {:induction false} SegmentsShape(outcomes: seq<Outcome>)
    ensures |Segments(outcomes)| == Consumed(outcomes)
    ensures forall k :: 0 <= k < |Segments(outcomes)| ==>
              Segments(outcomes)[k] == Segment(outcomes[k])
  {
    if outcomes != [] && !outcomes[0].RequestError? {
      SegmentsShape(outcomes[1..]);
      assert HaltIndex(outcomes) == 1 + HaltIndex(outcomes[1..]);
      forall k | 0 < k < |Segments(outcomes)|
        ensures Segments(outcomes)[k] == Segment(outcomes[k])
      {
        assert outcomes[1..][k - 1] == outcomes[k];
      }
    }
  }

  /** One more window after an error-free prefix adds its segment, whatever
      its outcome. */
  lemma {:induction false} SegmentsSnoc(prefix: seq<Outcome>, o: Outcome)
    requires HaltIndex(prefix) == |prefix|
    ensures Segments(prefix + [o]) == Segments(prefix) + [Segment(o)]
  {
    if prefix == [] {
      assert prefix + [o] == [o];
    } else {
      assert (prefix + [o])[0] == prefix[0];
      assert (prefix + [o])[1..] == prefix[1..] + [o];
      SegmentsSnoc(prefix[1..], o);
    }
  }

  /** Nothing after a failure reaches the transcript. */
  lemma {:induction false} SegmentsStopAfterFailure(prefix: seq<Outcome>, rest: seq<Outcome>)
    requires HaltIndex(prefix) < |prefix|
    ensures Segments(prefix + rest) == Segments(prefix)
  {
    if !prefix[0].RequestError? {
      assert (prefix + rest)[1..] == prefix[1..] + rest;
      SegmentsStopAfterFailure(prefix[1..], rest);
    }
  }

  /** One window after an error-free prefix appends its segment; unless it
      failed, the longer prefix is error-free too. */
  lemma {:induction false} WindowStep(heard: seq<Outcome>, i: nat)
    requires i < |heard| && HaltIndex(heard[..i]) == i
    ensures Segments(heard[..i + 1]) == Segments(heard[..i]) + [Segment(heard[i])]
    ensures !heard[i].RequestError? ==> HaltIndex(heard[..i + 1]) == i + 1
  {
    assert heard[..i + 1] == heard[..i] + [heard[i]];
    HaltIndexSnoc(heard[..i], heard[i]);
    SegmentsSnoc(heard[..i], heard[i]);
  }

  /** A failing window after an error-free prefix gives the last segment of
      the transcript. */
  lemma {:induction false} FailingWindow(heard: seq<Outcome>, i: nat)
    requires i < |heard| && heard[i].RequestError?
    requires HaltIndex(heard[..i]) == i
    ensures Segments(heard) == Segments(heard[..i + 1])
  {
    assert heard[..i + 1] + heard[i + 1..] == heard;
    var upTo := heard[..i + 1];
    assert upTo == heard[..i] + [heard[i]];
    HaltIndexSnoc(heard[..i], heard[i]);
    SegmentsStopAfterFailure(upTo, heard[i + 1..]);
  }

  /** The script's loop over `AudioPath`, a file of `duration` whole seconds;
      the recognizer's verdict on window k is `outcomes[k]`. It returns the
      file it opened, the full transcript and the windows it handed to the
      recognizer. */
  method TranscribeFile(duration: nat, outcomes: seq<Outcome>)
    returns (audioPath: string, transcript: string, recognised: seq<Window>)
    requires WindowCount(duration) <= |outcomes|
    ensures audioPath == AudioPath
    ensures transcript == Joined(Segments(outcomes[..WindowCount(duration)]))
    ensures recognised == Windows(duration)[..Consumed(outcomes[..WindowCount(duration)])]
  {
    ghost var heard := outcomes[..WindowCount(duration)];
    ghost var windows := Windows(duration);
    audioPath := AudioPath;
    transcript := "";
    recognised := [];
    var offset: nat, chunkIndex: nat := 0, 1;
    var cursor: nat := 0;
    while offset < duration
      invariant 1 <= chunkIndex && offset == WindowSeconds * (chunkIndex - 1)
      invariant chunkIndex - 1 <= WindowCount(duration)
      invariant cursor == Min(offset, duration)
      invariant HaltIndex(heard[..chunkIndex - 1]) == chunkIndex - 1
      invariant transcript == Joined(Segments(heard[..chunkIndex - 1]))
      invariant recognised == windows[..chunkIndex - 1]
      decreases WindowCount(duration) - (chunkIndex - 1)
    {
      RecordAtWindowOffset(duration, chunkIndex - 1);
      var audioData := Record(duration, cursor);
      cursor := audioData.end;
      recognised := recognised + [audioData];
      assert recognised == windows[..chunkIndex];
      ghost var verdict := heard[chunkIndex - 1];
      assert verdict == outcomes[chunkIndex - 1];
      WindowStep(heard, chunkIndex - 1);
      JoinedSnoc(Segments(heard[..chunkIndex - 1]), Segment(verdict));
      ghost var extended := Joined(Segments(heard[..chunkIndex]));
      assert transcript + Piece(Segment(verdict)) == extended;
      var chunkText: string;
      match outcomes[chunkIndex - 1] {
        case Text(text) =>
          chunkText := text;
        case NoMatch =>
          chunkText := Unintelligible;
        case RequestError(e) =>
          chunkText := ApiErrorText(e);
          transcript := transcript + (chunkText + " ");
          FailingWindow(heard, chunkIndex - 1);
          HaltAt(heard, chunkIndex - 1);
          break;
      }
      assert chunkText == Segment(verdict);
      transcript := transcript + (chunkText + " ");
      offset := offset + WindowSeconds;
      chunkIndex := chunkIndex + 1;
    }
    if offset >= duration {
      assert chunkIndex - 1 == WindowCount(duration);
      assert heard[..chunkIndex - 1] == heard;
    }
  }

  /** Without failures every window is transcribed: ceil(duration / 60)
      segments, none for an empty file. */
  lemma {:induction false} AllWindowsWithoutFailure(duration: nat, outcomes: seq<Outcome>)
    requires WindowCount(duration) <= |outcomes|
    requires forall k :: 0 <= k < WindowCount(duration) ==> !outcomes[k].RequestError?
    ensures |Segments(outcomes[..WindowCount(duration)])| == WindowCount(duration)
    ensures duration == 0 ==> Joined(Segments(outcomes[..WindowCount(duration)])) == ""
  {
    var heard := outcomes[..WindowCount(duration)];
    SegmentsShape(heard);
    assert forall k :: 0 <= k < |heard| ==> heard[k] == outcomes[k];
  }

  /** A failure in window h makes "[API error: <msg>] " the last segment of
      the transcript, right after the segments of the windows before it. */
  lemma {:induction false} FailureIsLastSegment(outcomes: seq<Outcome>)
    requires HaltIndex(outcomes) < |outcomes|
    ensures Joined(Segments(outcomes)) ==
              Joined(Segments(outcomes[..HaltIndex(outcomes)])) +
              (ApiErrorText(outcomes[HaltIndex(outcomes)].message) + " ")
  {
    var h := HaltIndex(outcomes);
    assert HaltIndex(outcomes[..h]) == h by {
      forall k | 0 <= k < h ensures !outcomes[..h][k].RequestError? {
        assert outcomes[..h][k] == outcomes[k];
      }
    }
    WindowStep(outcomes, h);
    FailingWindow(outcomes, h);
    HaltAt(outcomes, h);
    JoinedSnoc(Segments(outcomes[..h]), Segment(outcomes[h]));
  }

  /** A window without speech contributes exactly the placeholder and a space. */
  lemma {:induction false} NoMatchAddsPlaceholder(prefix: seq<Outcome>)
    requires HaltIndex(prefix) == |prefix|
    ensures Joined(Segments(prefix + [NoMatch])) == Joined(Segments(prefix)) + "[Unintelligible segment] "
  {
    SegmentsSnoc(prefix, NoMatch);
    JoinedSnoc(Segments(prefix), Unintelligible);
  }

  /** When the recognizer never returns empty text, every window handed to
      it contributes a non-empty segment: its text, the placeholder or the
      error text. */
  lemma {:induction false} EverySegmentNonEmpty(outcomes: seq<Outcome>)
    requires forall k :: 0 <= k < |outcomes| && outcomes[k].Text? ==> outcomes[k].text != ""
    ensures forall k :: 0 <= k < |Segments(outcomes)| ==> Segments(outcomes)[k] != ""
  {
    SegmentsShape(outcomes);
  }

  /** How the two front ends' outputs relate on any outcomes: the script has
      one more segment than the handler has entries exactly when a window
      failed, and the entries they share agree except that a window without
      speech is "" for the handler and the placeholder for the script. */
  lemma {:induction false} FrontEndsAgree(outcomes: seq<Outcome>)
    ensures |Segments(outcomes)| ==
              |WebApp.ChunkTexts(outcomes)| + (if HaltIndex(outcomes) < |outcomes| then 1 else 0)
    ensures forall k :: 0 <= k < |WebApp.ChunkTexts(outcomes)| && k < |outcomes| ==>
              Segments(outcomes)[k] ==
                (if outcomes[k].NoMatch? then Unintelligible else WebApp.ChunkTexts(outcomes)[k])
  {
    SegmentsShape(outcomes);
    WebApp.ChunkTextsShape(outcomes);
  }
}
