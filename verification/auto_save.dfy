/** The draft auto-save of ClientPortal.tsx as a debounce over an abstract
    millisecond clock: every change cancels the pending write and schedules
    a new one `Delay` ms later; the clock advancing past the due time
    performs that write. */
module AutoSave {
  import opened Domain

  /** The auto-save delay in milliseconds. */
  const Delay: nat := 1000

  datatype Timer<T> = Timer(due: int, value: T)

  /** The clock and the pending write, if any. */
  datatype Saver<T> = Saver(now: int, pending: Option<Timer<T>>)

  /** The effect re-running after a change: the old timeout is cleared and a
      new one carries the current value. */
  function Schedule<T>(s: Saver<T>, value: T): (r: Saver<T>)
    ensures r.now == s.now
    ensures r.pending.Some? && r.pending.value.value == value
    ensures r.pending.value.due - r.now == Delay
  {
    Saver(s.now, Some(Timer(s.now + Delay, value)))
  }

  /** Lets `dt` ms pass; returns the new saver and the value written, if the
      pending write fell due. */
  function Advance<T>(s: Saver<T>, dt: nat): (out: (Saver<T>, Option<T>))
    ensures out.0.now == s.now + dt
    ensures out.1.Some? <==> s.pending.Some? && s.pending.value.due <= s.now + dt
    ensures out.1.Some? ==> out.1.value == s.pending.value.value && out.0.pending.None?
    ensures out.1.None? ==> out.0.pending == s.pending
  {
    if s.pending.Some? && s.pending.value.due <= s.now + dt then
      (Saver(s.now + dt, None), Some(s.pending.value.value))
    else
      (Saver(s.now + dt, s.pending), None)
  }

  /** A change arriving `gap` ms after the previous event: time passes, then
      the write is rescheduled with the new value. */
  datatype Edit<T> = Edit(gap: nat, value: T)

  /** Runs a sequence of edits; returns the final saver and the values
      written along the way, in order. */
  function RunEdits<T>(s: Saver<T>, edits: seq<Edit<T>>): (out: (Saver<T>, seq<T>))
    ensures edits != [] ==> out.0.pending == Some(Timer(out.0.now + Delay, edits[|edits| - 1].value))
    ensures edits == [] ==> out == (s, [])
    decreases |edits|
  {
    if edits == [] then (s, [])
    else
      var (s1, written) := Advance(s, edits[0].gap);
      var (s2, rest) := RunEdits(Schedule(s1, edits[0].value), edits[1..]);
      (s2, (if written.Some? then [written.value] else []) + rest)
  }

  /** A burst of changes, each less than `Delay` after the one before,
      writes nothing while it lasts; once `Delay` ms pass after the last
      change, exactly the last value is written. */
  lemma {:induction false} BurstWritesLastValueOnly<T>(s: Saver<T>, edits: seq<Edit<T>>)
    requires s.pending.None? || s.pending.value.due > s.now + (if edits == [] then 0 else edits[0].gap)
    requires edits != []
    requires forall i :: 0 < i < |edits| ==> edits[i].gap < Delay
    ensures RunEdits(s, edits).1 == []
    ensures Advance(RunEdits(s, edits).0, Delay).1 == Some(edits[|edits| - 1].value)
    decreases |edits|
  {
    var (s1, written) := Advance(s, edits[0].gap);
    assert written.None?;
    var s2 := Schedule(s1, edits[0].value);
    if |edits| > 1 {
      assert edits[1..][0] == edits[1];
      forall i | 0 < i < |edits[1..]|
        ensures edits[1..][i].gap < Delay
      {
        assert edits[1..][i] == edits[i + 1];
      }
      BurstWritesLastValueOnly(s2, edits[1..]);
      assert edits[1..][|edits[1..]| - 1] == edits[|edits| - 1];
    }
  }
}
