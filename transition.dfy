/** The transition loop of `main`: notes placed one after another in the gap between the
    two fragments, their length and velocity blended linearly across the gap. */
module Transition {
  import opened Notes
  import opened RealFacts

  /** The numbers the loop reads: the gap `[endOfBegin, beginOfEnd]`, the floor-average
      note lengths of the two melodies, the velocity of the last begin-melody note and
      of the first end-melody note. */
  datatype Gap = Gap(endOfBegin: int, beginOfEnd: int, beginAvg: int, endAvg: int,
                     beginVelocity: int, endVelocity: int)

  /** The sample points the spline is fitted to. */
  datatype Curve = Curve(xs: seq<int>, ys: seq<int>)

  /** `f(x, x_points, y_points)`: the spline fitted to the sample points, evaluated at x.
      The fit itself is not modelled; any function of the samples and the position will do. */
  type Spline = (seq<int>, seq<int>, real) -> real

  /** What the loop needs: non-negative positions and note lengths and a gap of non-zero
      length (`rel_position` divides by the gap length). */
  predicate Schedulable(g: Gap) {
    && 0 <= g.endOfBegin && 0 <= g.beginAvg && 0 <= g.endAvg
    && g.endOfBegin != g.beginOfEnd
  }

  function RelPosition(g: Gap, p: real): real
    requires g.endOfBegin != g.beginOfEnd
  {
    (p - g.endOfBegin as real) / (g.beginOfEnd - g.endOfBegin) as real
  }

  /** The length of a note at `p`: the two average lengths blended by the relative position. */
  function NoteLength(g: Gap, p: real): real
    requires g.endOfBegin != g.beginOfEnd
  {
    Lerp(RelPosition(g, p), g.beginAvg as real, g.endAvg as real)
  }

  /** The velocity of a note at `p`: the two boundary velocities blended by the relative
      position, truncated to an integer. */
  function BlendedVelocity(g: Gap, p: real): int
    requires g.endOfBegin != g.beginOfEnd
  {
    Trunc(Lerp(RelPosition(g, p), g.beginVelocity as real, g.endVelocity as real))
  }

  /** The note appended at cursor position `p`. */
  function Emit(g: Gap, c: Curve, spline: Spline, p: real): Note
    requires g.endOfBegin != g.beginOfEnd
  {
    Note(Trunc(p), Trunc(p + NoteLength(g, p)), Trunc(spline(c.xs, c.ys, p)), BlendedVelocity(g, p))
  }

  /** The program's own test for placing one more note: `position + note_length` does not
      pass `begin_of_end`. */
  predicate FitsAsWritten(g: Gap, p: real)
    requires g.endOfBegin != g.beginOfEnd
  {
    p + NoteLength(g, p) <= g.beginOfEnd as real
  }

  /** The test the model's loop uses: in addition, the cursor has not passed the gap end. */
  predicate Fits(g: Gap, p: real)
    requires g.endOfBegin != g.beginOfEnd
  {
    p <= g.beginOfEnd as real && FitsAsWritten(g, p)
  }

  function Min(a: int, b: int): int { if a <= b then a else b }
  function Max(a: int, b: int): int { if a <= b then b else a }

  /** Termination measure of the loop: whole ticks left before the gap end. */
  function Measure(g: Gap, p: real): nat {
    if p <= g.beginOfEnd as real then (g.beginOfEnd as real - p).Floor + 1 else 0
  }

  /** Inside the gap the blend weight lies in [0, 1], so the blended length lies between the
      two average lengths and the velocity between the two velocities. */
  lemma InGap(g: Gap, p: real)
    requires g.endOfBegin < g.beginOfEnd
    requires g.endOfBegin as real <= p <= g.beginOfEnd as real
    ensures 0.0 <= RelPosition(g, p) <= 1.0
    ensures Min(g.beginAvg, g.endAvg) as real <= NoteLength(g, p) <= Max(g.beginAvg, g.endAvg) as real
    ensures Min(g.beginVelocity, g.endVelocity) <= BlendedVelocity(g, p) <= Max(g.beginVelocity, g.endVelocity)
  {
    var r := RelPosition(g, p);
    DivBetween(p - g.endOfBegin as real, (g.beginOfEnd - g.endOfBegin) as real);
    LerpBetween(r, g.beginAvg as real, g.endAvg as real);
    LerpBetween(r, g.beginVelocity as real, g.endVelocity as real);
    TruncBetween(Lerp(r, g.beginVelocity as real, g.endVelocity as real),
                 Min(g.beginVelocity, g.endVelocity), Max(g.beginVelocity, g.endVelocity));
  }

  lemma TruncBetween(v: real, lo: int, hi: int)
    requires lo as real <= v <= hi as real
    ensures lo <= Trunc(v) <= hi
  {
  }

  /** When the average lengths differ by less than the gap, the extrapolated note past the
      gap end never fits. */
  lemma PastGap(g: Gap, p: real)
    requires Schedulable(g) && g.endOfBegin < g.beginOfEnd
    requires g.beginAvg - g.endAvg < g.beginOfEnd - g.endOfBegin
    ensures p > g.beginOfEnd as real ==> !FitsAsWritten(g, p)
  {
    if p > g.beginOfEnd as real {
      var G := (g.beginOfEnd - g.endOfBegin) as real;
      var B := g.beginAvg as real;
      var E := g.endAvg as real;
      var x := p - g.beginOfEnd as real;
      var k := x / G;
      DivShift(x, G);
      assert p - g.endOfBegin as real == x + G;
      assert RelPosition(g, p) == k + 1.0;
      LerpExtrapolate(k, B, E);
      var n := NoteLength(g, p);
      assert n == E + k * (E - B);
      Factor(k, G, B, E);
      var w := k * (G - (B - E));
      assert p + n - g.beginOfEnd as real == w + E;
      DivPositive(x, G);
      MulPositive(k, G - (B - E));
    }
  }

  /** A gap that runs backward (negative length) ends the program's loop at once. */
  lemma BackwardGap(g: Gap)
    requires Schedulable(g) && g.beginOfEnd < g.endOfBegin
    ensures !FitsAsWritten(g, g.endOfBegin as real)
  {
    assert RelPosition(g, g.endOfBegin as real) == 0.0;
  }

  /** The loop's first test, at the start of the gap: a note of the begin average's length
      fits, under the model's test and the program's alike, exactly when it ends by the gap
      end. */
  lemma FirstFit(g: Gap)
    requires Schedulable(g)
    ensures Fits(g, g.endOfBegin as real) <==> FitsAsWritten(g, g.endOfBegin as real)
    ensures Fits(g, g.endOfBegin as real) <==> g.endOfBegin + g.beginAvg <= g.beginOfEnd
  {
    assert RelPosition(g, g.endOfBegin as real) == 0.0;
    assert NoteLength(g, g.endOfBegin as real) == g.beginAvg as real;
  }

  /** Wherever the program's loop can be, the model's test and the program's test agree,
      provided the average lengths differ by less than the gap. */
  lemma GuardsAgree(g: Gap, p: real)
    requires Schedulable(g) && g.endOfBegin as real <= p
    requires g.endOfBegin < g.beginOfEnd ==> g.beginAvg - g.endAvg < g.beginOfEnd - g.endOfBegin
    requires g.beginOfEnd < g.endOfBegin ==> p == g.endOfBegin as real
    ensures Fits(g, p) <==> FitsAsWritten(g, p)
  {
    if g.beginOfEnd < g.endOfBegin {
      BackwardGap(g);
    } else {
      PastGap(g, p);
    }
  }

  /** Once a first note fits, the two tests can disagree at a reachable cursor only on the
      input where a begin average the size of the gap meets an end average of zero: there
      every note the program places ends exactly at the gap end, and its loop never stops. */
  lemma GuardsDifferOnlyWhenStuck(g: Gap, p: real)
    requires Schedulable(g) && g.endOfBegin as real <= p
    requires g.endOfBegin < g.beginOfEnd && g.endOfBegin + g.beginAvg <= g.beginOfEnd
    requires Fits(g, p) != FitsAsWritten(g, p)
    ensures g.endAvg == 0 && g.beginAvg == g.beginOfEnd - g.endOfBegin
    ensures StuckEverywhere(g)
  {
    if g.beginAvg - g.endAvg < g.beginOfEnd - g.endOfBegin {
      GuardsAgree(g, p);
    }
    forall q: real | g.endOfBegin as real <= q
      ensures q + NoteLength(g, q) == g.beginOfEnd as real
    {
      LengthFillsGap(g, q);
    }
  }

  /** Every cursor from the gap start on passes the program's test, with the note ending
      exactly at the gap end. */
  ghost predicate StuckEverywhere(g: Gap)
    requires g.endOfBegin != g.beginOfEnd
  {
    forall q: real :: g.endOfBegin as real <= q ==> q + NoteLength(g, q) == g.beginOfEnd as real
  }

  /** With an end average of zero and a begin average the size of the gap, a note placed at
      any cursor ends exactly at the gap end. */
  lemma LengthFillsGap(g: Gap, q: real)
    requires g.endOfBegin < g.beginOfEnd
    requires g.endAvg == 0 && g.beginAvg == g.beginOfEnd - g.endOfBegin
    ensures q + NoteLength(g, q) == g.beginOfEnd as real
  {
    var G := (g.beginOfEnd - g.endOfBegin) as real;
    var x := q - g.endOfBegin as real;
    var t := RelPosition(g, q);
    assert t == x / G;
    DivShift(x, G);
    var m := t * (0.0 - G);
    assert m == -(t * G);
    assert NoteLength(g, q) == G + m;
  }

  /** The program's own test does not always end the loop. With a gap of 1840 ticks, a
      begin average of 1840 ticks and an end average of 0, the first note reaches the gap end
      exactly, the cursor moves 20 ticks past it, and there the extrapolated length is -20:
      the note fits the program's test and the cursor stays where it is, for ever. */
  lemma StuckPastGapEnd()
    ensures var g := Gap(1840, 3680, 1840, 0, 100, 100);
      && Schedulable(g)
      && FitsAsWritten(g, 1840.0) && 1840.0 + NoteLength(g, 1840.0) + 20.0 == 3700.0
      && FitsAsWritten(g, 3700.0) && 3700.0 + NoteLength(g, 3700.0) + 20.0 == 3700.0
      && !Fits(g, 3700.0)
  {
    var g := Gap(1840, 3680, 1840, 0, 100, 100);
    assert RelPosition(g, 1840.0) == 0.0;
    assert RelPosition(g, 3700.0) == 1860.0 / 1840.0;
  }

  /** What one more turn of the loop needs: if the note fits, the gap runs forward, the
      cursor is inside it, the note length is non-negative and the measure drops. */
  lemma Step(g: Gap, p: real)
    requires Schedulable(g) && g.endOfBegin as real <= p
    requires Fits(g, p)
    ensures g.endOfBegin < g.beginOfEnd
    ensures 0.0 <= NoteLength(g, p)
    ensures Measure(g, p + NoteLength(g, p) + 20.0) < Measure(g, p)
  {
    InGap(g, p);
    var q := p + NoteLength(g, p) + 20.0;
    var e := g.beginOfEnd as real;
    if q <= e {
      assert (e - q) <= (e - p) - 20.0;
      assert (e - q).Floor <= (e - p).Floor - 20;
    }
  }

  /** The notes the loop appends from cursor position `p` on, in order. */
  function Schedule(g: Gap, c: Curve, spline: Spline, p: real): seq<Note>
    requires Schedulable(g) && g.endOfBegin as real <= p
    decreases Measure(g, p)
  {
    if !Fits(g, p) then []
    else
      Step(g, p);
      [Emit(g, c, spline, p)] + Schedule(g, c, spline, p + NoteLength(g, p) + 20.0)
  }

  /** A transition note in its place: inside the gap, well formed, with a length between
      the two average lengths and a velocity between the two velocities. */
  predicate Placed(g: Gap, n: Note) {
    && g.endOfBegin <= n.start && WellFormed(n) && n.end <= g.beginOfEnd
    && Min(g.beginAvg, g.endAvg) <= Duration(n) <= Max(g.beginAvg, g.endAvg)
    && Min(g.beginVelocity, g.endVelocity) <= n.velocity <= Max(g.beginVelocity, g.endVelocity)
  }

  /** The note emitted at a cursor position where it fits: it starts at the cursor, ends
      inside the gap, and its length and velocity lie between the two fragments' values. */
  lemma EmitFits(g: Gap, c: Curve, spline: Spline, p: real)
    requires Schedulable(g) && g.endOfBegin as real <= p
    requires Fits(g, p)
    ensures Emit(g, c, spline, p).start == Trunc(p)
    ensures Placed(g, Emit(g, c, spline, p))
  {
    Step(g, p);
    InGap(g, p);
    var nl := NoteLength(g, p);
    var lo := Min(g.beginAvg, g.endAvg);
    var hi := Max(g.beginAvg, g.endAvg);
    TruncMonotonic(p + lo as real, p + nl);
    TruncMonotonic(p + nl, p + hi as real);
    TruncShift(p, lo);
    TruncShift(p, hi);
    TruncMonotonic(p + nl, g.beginOfEnd as real);
    TruncMonotonic(g.endOfBegin as real, p);
  }

  /** Where the note at `p` fits, the transition is that note followed by the transition
      from the next cursor position `q`, which is at least as far on. */
  lemma ScheduleCons(g: Gap, c: Curve, spline: Spline, p: real) returns (q: real)
    requires Schedulable(g) && g.endOfBegin as real <= p
    requires Fits(g, p)
    ensures q == p + NoteLength(g, p) + 20.0
    ensures g.endOfBegin < g.beginOfEnd && p <= q && Trunc(p) <= Trunc(q)
    ensures Measure(g, q) < Measure(g, p)
    ensures Schedule(g, c, spline, p) == [Emit(g, c, spline, p)] + Schedule(g, c, spline, q)
  {
    Step(g, p);
    q := p + NoteLength(g, p) + 20.0;
    TruncMonotonic(p, q);
  }

  /** Every note of the transition starts no earlier than the cursor and is `Placed`. */
  lemma {:induction false} ScheduleWithinGap(g: Gap, c: Curve, spline: Spline, p: real)
    requires Schedulable(g) && g.endOfBegin as real <= p
    decreases Measure(g, p)
    ensures var s := Schedule(g, c, spline, p);
      forall i :: 0 <= i < |s| ==> Trunc(p) <= s[i].start && Placed(g, s[i])
  {
    if Fits(g, p) {
      var q := ScheduleCons(g, c, spline, p);
      ScheduleWithinGap(g, c, spline, q);
      EmitFits(g, c, spline, p);
      var s := Schedule(g, c, spline, p);
      var t := Schedule(g, c, spline, q);
      forall i | 0 <= i < |s| ensures Trunc(p) <= s[i].start && Placed(g, s[i]) {
        if i > 0 {
          assert s[i] == t[i - 1];
        }
      }
    }
  }

  /** Consecutive transition notes are 20 ticks apart: each starts 20 ticks after the
      previous one ends. */
  lemma {:induction false} ScheduleSpacing(g: Gap, c: Curve, spline: Spline, p: real)
    requires Schedulable(g) && g.endOfBegin as real <= p
    decreases Measure(g, p)
    ensures var s := Schedule(g, c, spline, p);
      (|s| > 0 ==> s[0].start == Trunc(p))
      && forall i :: 0 <= i < |s| - 1 ==> s[i + 1].start == s[i].end + 20
  {
    var nl := NoteLength(g, p);
    if Fits(g, p) {
      Step(g, p);
      var q := p + nl + 20.0;
      ScheduleSpacing(g, c, spline, q);
      TruncShift(p + nl, 20);
    }
  }

  /** Well-formed notes each starting 20 ticks after its predecessor ends do not overlap. */
  lemma {:induction false} SpacedOrdered(s: seq<Note>)
    requires forall i :: 0 <= i < |s| ==> WellFormed(s[i])
    requires forall i :: 0 <= i < |s| - 1 ==> s[i + 1].start == s[i].end + 20
    ensures forall i, j :: 0 <= i < j < |s| ==> s[i].end + 20 <= s[j].start
  {
    if |s| > 1 {
      var t := s[1..];
      SpacedOrdered(t);
      forall i, j | 0 <= i < j < |s| ensures s[i].end + 20 <= s[j].start {
        if i > 0 {
          assert s[i] == t[i - 1] && s[j] == t[j - 1];
        } else if j > 1 {
          assert s[1] == t[0] && s[j] == t[j - 1];
        }
      }
    }
  }

  /** Transition notes do not overlap: every later note starts at least 20 ticks after an
      earlier one ends, so the onsets strictly increase. */
  lemma ScheduleOrdered(g: Gap, c: Curve, spline: Spline, p: real)
    requires Schedulable(g) && g.endOfBegin as real <= p
    ensures var s := Schedule(g, c, spline, p);
      forall i, j :: 0 <= i < j < |s| ==> s[i].end + 20 <= s[j].start && s[i].start < s[j].start
  {
    ScheduleWithinGap(g, c, spline, p);
    ScheduleSpacing(g, c, spline, p);
    SpacedOrdered(Schedule(g, c, spline, p));
  }

  /** The number of transition notes is bounded by the gap: at least 20 ticks lie between
      the onsets of consecutive notes. */
  lemma {:induction false} ScheduleCount(g: Gap, c: Curve, spline: Spline, p: real)
    requires Schedulable(g) && g.endOfBegin as real <= p
    decreases Measure(g, p)
    ensures var s := Schedule(g, c, spline, p);
      |s| > 0 ==> 20 * (|s| - 1) <= g.beginOfEnd - Trunc(p)
  {
    var nl := NoteLength(g, p);
    if Fits(g, p) {
      Step(g, p);
      EmitFits(g, c, spline, p);
      var q := p + nl + 20.0;
      ScheduleCount(g, c, spline, q);
      TruncShift(p + nl, 20);
      TruncMonotonic(p, p + nl);
      TruncMonotonic(p, g.beginOfEnd as real);
      var s := Schedule(g, c, spline, p);
      var t := Schedule(g, c, spline, q);
      assert s == [Emit(g, c, spline, p)] + t;
      assert 20 * (|s| - 1) == 20 * |t|;
      if t != [] {
        assert 20 * |t| == 20 * (|t| - 1) + 20;
      }
    }
  }

  /** A gap that runs backward yields no transition notes. */
  lemma BackwardGapEmpty(g: Gap, c: Curve, spline: Spline)
    requires Schedulable(g) && g.beginOfEnd < g.endOfBegin
    ensures Schedule(g, c, spline, g.endOfBegin as real) == []
  {
  }

  /** The transition loop of `main`, which stops once the next note would pass the gap end
      or the cursor has passed it. */
  method Transition(g: Gap, c: Curve, spline: Spline) returns (generated: seq<Note>)
    requires Schedulable(g)
    ensures generated == Schedule(g, c, spline, g.endOfBegin as real)
  {
    var position: real := g.endOfBegin as real;
    generated := [];
    while true
      invariant g.endOfBegin as real <= position
      invariant generated + Schedule(g, c, spline, position) == Schedule(g, c, spline, g.endOfBegin as real)
      decreases Measure(g, position)
    {
      var relPosition := (position - g.endOfBegin as real) / (g.beginOfEnd - g.endOfBegin) as real;
      var noteLength := Lerp(relPosition, g.beginAvg as real, g.endAvg as real);
      var velocity := Trunc(Lerp(relPosition, g.beginVelocity as real, g.endVelocity as real));
      if position > g.beginOfEnd as real || position + noteLength > g.beginOfEnd as real {
        break;
      }
      Step(g, position);
      var pitch := Trunc(spline(c.xs, c.ys, position));
      var note := Note(Trunc(position), Trunc(position + noteLength), pitch, velocity);
      assert note == Emit(g, c, spline, position);
      generated := generated + [note];
      position := position + noteLength + 20.0;
    }
  }
}
