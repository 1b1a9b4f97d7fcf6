/** Windowed access to the normalised audio file: the file is read in
    consecutive 60-second windows through a cursor that each read advances. */
module Audio {

  /** Seconds requested by every read of the recognizer (`duration=60`). */
  const WindowSeconds: nat := 60

  /** A slice [start, end) of the audio, in whole seconds. */
  datatype Window = Window(start: nat, end: nat)

  function Min(a: nat, b: nat): nat
  {
    if a <= b then a else b
  }

  /** How many windows a file of `duration` whole seconds is cut into. */
  function WindowCount(duration: nat): (n: nat)
    ensures duration <= n * 60
    ensures n == 0 || (n - 1) * 60 < duration
    ensures n == 0 <==> duration == 0
  {
    (duration + WindowSeconds - 1) / WindowSeconds
  }

  /** One read of up to 60 seconds from the cursor position, clipped at the
      end of the file. The cursor moves to the end of the returned window. */
  function Record(duration: nat, cursor: nat): (w: Window)
    requires cursor < duration
    ensures w.start == cursor < w.end <= duration
    ensures w.end - w.start <= WindowSeconds
    ensures w.end - w.start == WindowSeconds || w.end == duration
  {
    Window(cursor, Min(cursor + WindowSeconds, duration))
  }

  /** The label of window `k`: [60k, min(60k + 60, duration)). */
  function WindowAt(duration: nat, k: nat): Window
  {
    Window(WindowSeconds * k, Min(WindowSeconds * k + WindowSeconds, duration))
  }

  /** Every window of the file, in increasing offset order. */
  function Windows(duration: nat): seq<Window>
  {
    seq(WindowCount(duration), k requires 0 <= k => WindowAt(duration, k))
  }

  /** Reading at the offset of window `k` yields exactly window `k`. */
  lemma {:induction false} RecordAtWindowOffset(duration: nat, k: nat)
    requires WindowSeconds * k < duration
    ensures k < WindowCount(duration)
    ensures Record(duration, WindowSeconds * k) == Windows(duration)[k]
  {
  }

  /** The windows tile the file: they start at 0, are non-empty, at most
      60 seconds long, contiguous and non-overlapping, and the last one ends
      at the end of the file with length duration - 60 * (n - 1). */
  lemma {:induction false} WindowsTile(duration: nat)
    ensures |Windows(duration)| == WindowCount(duration)
    ensures duration == 0 <==> Windows(duration) == []
    ensures forall k :: 0 <= k < |Windows(duration)| ==>
              Windows(duration)[k].start < Windows(duration)[k].end <= duration &&
              Windows(duration)[k].end - Windows(duration)[k].start <= WindowSeconds
    ensures forall k :: 0 < k < |Windows(duration)| ==>
              Windows(duration)[k].start == Windows(duration)[k - 1].end
    ensures Windows(duration) != [] ==>
              Windows(duration)[0].start == 0 &&
              Windows(duration)[|Windows(duration)| - 1].end == duration &&
              Windows(duration)[|Windows(duration)| - 1].end - Windows(duration)[|Windows(duration)| - 1].start
                == duration - WindowSeconds * (|Windows(duration)| - 1)
  {
  }

  /** A 130-second file is read as [0, 60), [60, 120), [120, 130). */
  lemma WindowsOf130Seconds()
    ensures Windows(130) == [Window(0, 60), Window(60, 120), Window(120, 130)]
  {
    assert WindowCount(130) == 3;
  }
}
