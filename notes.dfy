/** Notes as the MIDI toolkit hands them over, and the error cases of the program. */
module Notes {

  /** One MIDI note: onset and release in ticks, MIDI pitch number, velocity. */
  datatype Note = Note(start: int, end: int, pitch: int, velocity: int)

  /** Ticks are non-negative and a note is released no earlier than it starts. */
  predicate WellFormed(n: Note) {
    0 <= n.start <= n.end
  }

  predicate AllWellFormed(s: seq<Note>) {
    forall i :: 0 <= i < |s| ==> WellFormed(s[i])
  }

  function Duration(n: Note): int {
    n.end - n.start
  }

  /** Python's `int(x)` on a float: truncation toward zero. */
  function Trunc(x: real): (r: int)
    ensures 0.0 <= x ==> r as real <= x < r as real + 1.0
    ensures x < 0.0 ==> r as real - 1.0 < x <= r as real
  {
    if 0.0 <= x then x.Floor else -((-x).Floor)
  }

  lemma TruncShift(x: real, k: int)
    requires 0.0 <= x && 0 <= k
    ensures Trunc(x + k as real) == Trunc(x) + k
  {
  }

  lemma TruncMonotonic(x: real, y: real)
    requires 0.0 <= x <= y
    ensures Trunc(x) <= Trunc(y)
  {
  }

  /** The run-time faults of the program that the model reports as values. */
  datatype Error =
    | EmptyBeginMelody   // the begin fragment's average length divides by its empty melody's size
    | EmptyEndMelody     // the end fragment's average length divides by its empty melody's size
    | ZeroLengthGap      // the blend weight divides by the gap's length, which is zero
    | TooFewSamples      // the cubic spline fit needs more than three samples

  datatype Result<T> = Ok(value: T) | Err(error: Error)
}
