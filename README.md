# Chunked transcription of the Meeting Minutes Generator, in Dafny

The Meeting Minutes Generator takes an uploaded recording of a meeting and
turns it into a transcript. The minutes are then written from that
transcript. This project models the transcription part in two front ends:

- **The web handler (`app.py`).** The upload gate admits only `.wav`, `.m4a`
  and `.mp4` names, compared case-insensitively. The handler then picks the
  audio file to open: `uploads/converted_audio.wav` for a converted
  container, or the saved upload for a `.wav`. It walks the file in 60-second
  windows. Each window's recognised text goes into the chunk list and, with
  a trailing space, into the full transcript. A window with no intelligible
  speech adds `""` to the list and a lone space to the transcript. At the
  first service failure the loop stops, and the failing window leaves no
  trace.
- **The standalone script (`transcribe.py`).** It runs the same loop over
  `converted_audio.wav`. A window with no intelligible speech contributes
  `[Unintelligible segment]`. A service failure contributes
  `[API error: <message>]` as the last segment before the loop stops.

Modules:

- `Audio` (`audio.dfy`): the 60-second window, the number of windows
  `ceil(D/60)`, one read at the cursor, and the window labels.
- `Recognition` (`recognition.dfy`): the per-window outcome
  `Text(s) | NoMatch | RequestError(msg)`, the index of the first failure,
  and the number of windows handed to the recognizer.
- `Transcript` (`transcript.dfy`): the running transcript, built by
  `+= segment + " "`.
- `Upload` (`upload.dfy`): the gate and the choice of audio file. This
  includes POSIX `os.path.join`, `os.path.splitext` and `str.rfind`.
- `WebApp` (`web_app.dfy`): the handler's loop (`TranscribeChunks`) and the
  handler (`Index`).
- `ScriptTranscriber` (`script_transcriber.dfy`): the script's loop
  (`TranscribeFile`), and how its output relates to the handler's.

The two loops are methods with `while` loops, as in the source. Each is
proved against a specification function written front to back over the
outcomes (`WebApp.ChunkTexts`, `ScriptTranscriber.Segments`). The properties
of those functions are lemmas.

Abstractions:

- The recognizer is a sequence `outcomes`, where `outcomes[k]` is its verdict
  on window `k`. The loops require one verdict for each window of the file.
- The audio file is its length `duration`: the `int(source.DURATION)` of the
  file that was opened.
- The stream position is a local `cursor`. Each read advances it by up to 60
  seconds, and it stops at the end of the file.
- Each loop also returns `recognised`, the windows it handed to the
  recognizer. This makes "nothing is recognised after a failure" a
  postcondition.

## Behaviour worth knowing

- A failing window adds no entry to the chunk list. In `app.py:64-66` the
  error text is formed and then dropped by the `break`, so the chunk list
  ends before the failing window (`WebApp.FailureLeavesNoTrace`,
  `WebApp.FailureInThirdWindow`).
- A window with no speech still adds a space to the handler's transcript
  (`app.py:63`, `app.py:69`), so a 45-second file with no speech gives
  `" "` (`WebApp.NoMatchAddsOnlySpace`). In `transcribe.py` it adds the
  placeholder instead.
- A rejected upload is not an error: the handler renders the page without a
  transcript and with an empty chunk list (`app.py:37`, `app.py:84-92`,
  `WebApp.Index`).
- A bare `.m4a` is not converted. The gate tests the end of the lower-cased
  name, but the conversion choice uses `os.path.splitext` (`app.py:43-44`).
  A name whose stem is only dots, such as `.m4a`, passes the gate, has no
  extension, and is opened as WAV without conversion
  (`Upload.RoutingOfAcceptedUpload`, `Upload.BareContainerNameIsNotConverted`).

## Model

| member | source | states |
|---|---|---|
| `Audio.WindowCount` | app.py:57-58 | The number of windows is ceil(D/60): the least n with D <= 60n. It is zero exactly when D is zero. |
| `Audio.Record` | app.py:59 | A read starts at the cursor and is non-empty. It lasts at most 60 seconds, and ends either 60 seconds later or at the end of the file. |
| `Audio.RecordAtWindowOffset` | app.py:57-59 | While offset 60k is inside the file, k is a valid window index, and reading at 60k yields exactly window k. |
| `Audio.WindowsTile` | app.py:68-73 | Window k is labelled [60k, min(60k+60, D)). The windows start at 0 and are non-empty and at most 60 s long. They are contiguous and end at D, and the last one is D - 60(n-1) long. There are none exactly when D is 0. |
| `Audio.WindowsOf130Seconds` | app.py:58-73 | A 130-second file is read as [0,60), [60,120), [120,130). |
| `Audio.WindowAt` | app.py:68 | Definition of window k's label [60k, min(60k+60, D)); properties in `Audio.RecordAtWindowOffset` and `Audio.WindowsTile`. |
| `Audio.Windows` | app.py:57-73 | Definition of the windows the loop reads, in offset order; properties in `Audio.WindowsTile`. |
| `Recognition.ApiErrorText` | transcribe.py:31-32 | The error text is "[API error: ", then the message, then "]". |
| `Recognition.HaltIndex` | app.py:64-66 | The first RequestError sits at this index; no earlier outcome is one. The index is the length when no outcome fails. |
| `Recognition.Consumed` | app.py:58-66 | The windows handed to the recognizer are every window up to and including the first failure: at least one on a non-empty input, none before the last of them fails, and the last one fails unless all windows were handed over. That is all windows exactly when none but the last fails. |
| `Recognition.HaltIndexSnoc` | app.py:58-66 | Extending an error-free run by one window keeps it error-free unless that window fails. |
| `Recognition.HaltAt` | app.py:64-66 | A failure right after an error-free run is the first failure. The loop has then handed exactly that many windows plus one to the recognizer. |
| `Transcript.Joined` | app.py:69 | Definition of the transcript built by `+= text + " "`; properties in `Transcript.JoinedSnoc`, `Transcript.JoinedConcat` and `Transcript.SegmentInPlace`. |
| `Transcript.JoinedSnoc` | app.py:69 | Each kept window extends the transcript by its text followed by one space. |
| `Transcript.JoinedConcat` | app.py:69-70 | The transcript of consecutive runs of windows is the concatenation of their transcripts. |
| `Transcript.SegmentInPlace` | app.py:69-70 | Segment k appears in the transcript right after the transcript of the earlier segments, and is followed by a space. |
| `Upload.Accepted` | app.py:37 | Definition of the upload gate; properties in `Upload.AcceptedIffExtension`. |
| `Upload.ContainerName` | app.py:44 | Definition of the `.m4a`/`.mp4` test, any case; properties in `Upload.RoutingOfAcceptedUpload`. |
| `Upload.UploadPath` | app.py:39 | Definition of the saved path `os.path.join("uploads", filename)`; properties in `Upload.UploadPathKeepsBaseName`. |
| `Upload.ConvertedPath` | app.py:45 | Definition of `uploads/converted_audio.wav`; properties in `Upload.WavPathBySuffix` and `Upload.RoutingOfAcceptedUpload`. |
| `Upload.PathJoin` | app.py:39 | `os.path.join` yields a path ending in the file name. An absolute name replaces the folder. |
| `Upload.LastIndexOf` | app.py:43 | `rfind`: the result is the last position holding the character, or -1 if there is none. |
| `Upload.SplitExt` | app.py:43 | The extension is empty, or it is a suffix of the path that starts with a dot and holds no other dot and no separator. |
| `Upload.WavPath` | app.py:43-51 | The audio file is either the saved upload or the fixed converted file. |
| `Upload.AcceptedIffExtension` | app.py:37 | The gate admits a name exactly when its last four characters, lower-cased, are `.wav`, `.m4a` or `.mp4`. |
| `Upload.LastIndexOfAppend` | app.py:43 | The last occurrence in a concatenation lies in the second part when it has one, and in the first part otherwise. |
| `Upload.UploadPathKeepsBaseName` | app.py:39 | Saving under `uploads` keeps the name as the path's suffix, and keeps its last path component. |
| `Upload.SplitExtOfAcceptedPath` | app.py:43 | For a path whose lower-cased form ends in an accepted extension, `splitext` returns that extension exactly when the last component has a stem that is not all dots. Otherwise it returns "". |
| `Upload.WavPathBySuffix` | app.py:43-51 | A saved `.m4a`/`.mp4` path with a real stem is replaced by the converted file. Every other accepted path is opened as it is. |
| `Upload.RoutingOfAcceptedUpload` | app.py:37-51 | For an admitted name, the handler opens `uploads/converted_audio.wav` exactly when the name ends in `.m4a`/`.mp4` (any case) and has a real stem. Otherwise it opens the saved upload, which covers every `.wav`. |
| `Upload.BareContainerNameIsNotConverted` | app.py:37-51 | `.m4a` passes the gate but is opened unconverted as `uploads/.m4a`. |
| `WebApp.Admitted` | app.py:30-37 | Definition of a POST whose file passes the gate; properties in `WebApp.Index`. |
| `WebApp.ChunkText` | app.py:61-63 | Definition of a kept window's entry (its text, or "" without speech); properties in `WebApp.ChunkTextsShape`. |
| `WebApp.ChunkTexts` | app.py:58-70 | Definition of the chunk list, front to back; properties in `WebApp.ChunkTextsShape`, `WebApp.ChunkTextsSnoc`, `WebApp.ChunkTextsStopAtFailure` and `WebApp.TranscribeChunks`. |
| `WebApp.ChunkTextsShape` | app.py:60-70 | The chunk list has one entry per window before the first failure. Entry k is window k's text, or "" for no speech. |
| `WebApp.ChunkTextsSnoc` | app.py:60-70 | After an error-free run, one more window appends its entry. A failing window appends nothing. |
| `WebApp.ChunkTextsStopAtFailure` | app.py:64-66 | No window after a failure reaches the chunk list. |
| `WebApp.TranscribeChunks` | app.py:54-75 | The loop's chunk list is the specification's list over the file's windows. Its transcript is that list joined with trailing spaces. The windows it hands to the recognizer are exactly the windows up to and including the first failure, in order. The invariant is offset == 60(idx-1), with idx-1 entries. |
| `WebApp.Index` | app.py:30-75 | A request without an admitted file renders no transcript and an empty chunk list, and opens no audio file. An admitted upload opens the file chosen by `WavPath`, and renders the chunk list of `TranscribeChunks` and its joined transcript. |
| `WebApp.ChunkCountBound` | app.py:55-73 | The chunk list has at most ceil(D/60) entries, and exactly that many iff no window fails. D = 0 gives no entries and transcript "". |
| `WebApp.NoMatchAddsOnlySpace` | app.py:62-70 | A window without speech adds "" to the chunk list and a lone space to the transcript. |
| `WebApp.FailureLeavesNoTrace` | app.py:64-66 | A failing window, and every window after it, leave the chunk list as it was before that window. |
| `WebApp.FailureInThirdWindow` | app.py:58-73 | If the third window fails, all three windows are recognised. The chunk list holds only the first two texts, and the transcript is those two texts, each followed by a space. |
| `ScriptTranscriber.Segment` | transcribe.py:24-32 | Definition of one window's segment (text, placeholder or error text); properties in `ScriptTranscriber.SegmentsShape` and `ScriptTranscriber.EverySegmentNonEmpty`. |
| `ScriptTranscriber.Segments` | transcribe.py:24-42 | Definition of the segments, front to back; properties in `ScriptTranscriber.SegmentsShape`, `ScriptTranscriber.SegmentsSnoc`, `ScriptTranscriber.SegmentsStopAfterFailure` and `ScriptTranscriber.TranscribeFile`. |
| `ScriptTranscriber.SegmentsShape` | transcribe.py:24-42 | There is one segment per window handed to the recognizer. Segment k is window k's text, the placeholder, or the error text. |
| `ScriptTranscriber.SegmentsSnoc` | transcribe.py:35-42 | After an error-free run, one more window appends its segment, whatever its outcome. |
| `ScriptTranscriber.SegmentsStopAfterFailure` | transcribe.py:31-36 | No window after a failure reaches the transcript. |
| `ScriptTranscriber.TranscribeFile` | transcribe.py:4-46 | The script opens `converted_audio.wav`. Its transcript is the specification's segments joined with trailing spaces, and includes the failing window's error text. The windows handed to the recognizer are exactly those up to and including the first failure. The invariant is offset == 60(chunk_index-1). |
| `ScriptTranscriber.AllWindowsWithoutFailure` | transcribe.py:16-20 | With no failure there are exactly ceil(D/60) segments. D = 0 gives the transcript "". |
| `ScriptTranscriber.FailureIsLastSegment` | transcribe.py:31-36 | A failure at window h makes "[API error: msg] " the final piece of the transcript, right after the segments of windows 0..h-1. |
| `ScriptTranscriber.NoMatchAddsPlaceholder` | transcribe.py:29-42 | A window without speech adds exactly "[Unintelligible segment] ". |
| `ScriptTranscriber.EverySegmentNonEmpty` | transcribe.py:24-42 | If the recognizer never returns empty text, every window handed to it contributes a non-empty segment. |
| `ScriptTranscriber.FrontEndsAgree` | transcribe.py:24-42 | On any outcomes, the script has one more segment than the handler has chunk-list entries exactly when a window failed (the error text). The entries they share are equal, except that a window without speech is "" for the handler and the placeholder for the script. |

## Left out

- The Flask routing, the form fields (date, attendees, topic), `file.save` and `render_template` in `app.py` are web I/O. `Index` keeps only the request method and the uploaded file name.
- The pydub/ffmpeg conversion in `app.py` (`AudioSegment.from_file`, `export`) and `conversion.py` are foreign decoding and file I/O. The model keeps only which file is read afterwards.
- `speech_recognition` (`AudioFile`, `record`, `recognize_google`) is a library and network call. It is replaced by the outcome sequence, a duration and a cursor. The float `DURATION` is taken already truncated to whole seconds.
- The summary (`generate_minutes`), the `markdown` rendering and `download_pdf` are external renderers and a remote model call. `summarizer.py` is not part of this model.
- The `print` progress lines are not modelled. The window label they print is `Audio.WindowAt`. Writing `transcript.txt` in `transcribe.py` is file I/O and is also left out.
- `Upload.LowerChar`: only ASCII letters are lower-cased, whereas Python's `str.lower` also maps non-ASCII letters. Only ASCII letters can lower-case to the characters of the accepted extensions, so the gate's decision is unaffected.
- `WebApp.Index` assumes that every collaborator it calls succeeds. In `app.py` the handler returns no page but a server error when the pydub conversion raises (`app.py:47-48`), when `sr.AudioFile` cannot read the chosen file (`app.py:56`, as for a bare `.m4a` container opened as WAV), or when `generate_minutes` raises (`app.py:78`). These failures come from foreign code and the network, which the model does not include.
- Paths follow POSIX `os.path`. Windows path rules are not modelled.
