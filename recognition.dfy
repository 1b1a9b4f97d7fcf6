/** The three outcomes of asking the speech service to recognise one window,
    and where a sequence of outcomes makes the transcription loop stop. */
module Recognition {

  /** Recognised text, no intelligible speech (`UnknownValueError`), or a
      failure of the service (`RequestError`, carrying its message). */
  datatype Outcome = Text(text: string) | NoMatch | RequestError(message: string)

  /** The text both front ends build from a service failure: "[API error: <msg>]". */
  function ApiErrorText(message: string): (r: string)
    ensures |r| == |message| + 13
    ensures r[..12] == "[API error: " && r[12..|r| - 1] == message && r[|r| - 1] == ']'
  {
    "[API error: " + message + "]"
  }

  /** Index of the first service failure, or the length when there is none. */
  function HaltIndex(outcomes: seq<Outcome>): (h: nat)
    ensures h <= |outcomes|
    ensures forall i :: 0 <= i < h ==> !outcomes[i].RequestError?
    ensures h < |outcomes| ==> outcomes[h].RequestError?
  {
    if outcomes == [] || outcomes[0].RequestError? then 0
    else 1 + HaltIndex(outcomes[1..])
  }

  /** Number of windows handed to the recognizer: every window up to and
      including the first failing one. */
  function Consumed(outcomes: seq<Outcome>): (c: nat)
    ensures c <= |outcomes|
    ensures c == |outcomes| <==> forall i :: 0 <= i < |outcomes| - 1 ==> !outcomes[i].RequestError?
    ensures outcomes != [] ==> 0 < c
    ensures forall i :: 0 <= i < c - 1 ==> !outcomes[i].RequestError?
    ensures 0 < c < |outcomes| ==> outcomes[c - 1].RequestError?
  {
    if HaltIndex(outcomes) < |outcomes| then HaltIndex(outcomes) + 1 else |outcomes|
  }

  /** Extending an error-free prefix by one outcome moves the halt index only
      when that outcome is not a failure. */
  lemma {:induction false} HaltIndexSnoc(prefix: seq<Outcome>, o: Outcome)
    requires HaltIndex(prefix) == |prefix|
    ensures HaltIndex(prefix + [o]) == if o.RequestError? then |prefix| else |prefix| + 1
  {
    var whole := prefix + [o];
    var h := HaltIndex(whole);
    if o.RequestError? {
      assert whole[|prefix|] == o;
    } else {
      forall i | 0 <= i < |whole| ensures !whole[i].RequestError? {
        if i < |prefix| { assert whole[i] == prefix[i]; }
      }
    }
  }

  /** A failure right after an error-free prefix is the first failure: the
      loop halts there, after handing that window to the recognizer. */
  lemma {:induction false} HaltAt(outcomes: seq<Outcome>, i: nat)
    requires i < |outcomes| && outcomes[i].RequestError?
    requires HaltIndex(outcomes[..i]) == i
    ensures HaltIndex(outcomes) == i && Consumed(outcomes) == i + 1
  {
    forall k | 0 <= k < i ensures !outcomes[k].RequestError? {
      assert outcomes[k] == outcomes[..i][k];
    }
  }
}
