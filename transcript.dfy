/** The running full transcript: every segment followed by one space. */
module Transcript {

  /** What one segment adds to the transcript. */
  function Piece(segment: string): string
  {
    segment + " "
  }

  /** The transcript built by `full_transcript += segment + " "` over `segments`. */
  function Joined(segments: seq<string>): string
  {
    if segments == [] then ""
    else Joined(segments[..|segments| - 1]) + Piece(segments[|segments| - 1])
  }

  lemma {:induction false} AppendAssoc(x: string, y: string, z: string)
    ensures x + (y + z) == (x + y) + z
  {
  }

  /** Appending one more segment extends the transcript by that segment and a space. */
  lemma {:induction false} JoinedSnoc(segments: seq<string>, s: string)
    ensures Joined(segments + [s]) == Joined(segments) + Piece(s)
  {
    assert (segments + [s])[..|segments|] == segments;
  }

  /** The transcript of consecutive runs of segments is the concatenation of
      their transcripts: nothing is lost, reordered or duplicated. */
  lemma {:induction false} JoinedConcat(a: seq<string>, b: seq<string>)
    ensures Joined(a + b) == Joined(a) + Joined(b)
  {
    if b == [] {
      assert a + b == a;
    } else {
      var init, last := b[..|b| - 1], b[|b| - 1];
      assert b == init + [last];
      assert a + b == (a + init) + [last];
      JoinedConcat(a, init);
      JoinedSnoc(a + init, last);
      JoinedSnoc(init, last);
      AppendAssoc(Joined(a), Joined(init), Piece(last));
    }
  }

  /** Segment `k` sits in the transcript right after the transcript of the
      segments before it, followed by a space and the rest. */
  lemma {:induction false} SegmentInPlace(segments: seq<string>, k: nat)
    requires k < |segments|
    ensures Joined(segments) == (Joined(segments[..k]) + Piece(segments[k])) + Joined(segments[k + 1..])
  {
    var before, here, after := segments[..k], segments[k], segments[k + 1..];
    assert segments == (before + [here]) + after;
    JoinedConcat(before + [here], after);
    JoinedSnoc(before, here);
  }
}
