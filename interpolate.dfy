/** `main`: the begin fragment, the transition across a gap of `length` bars, and the end
    fragment moved behind the gap, in that order. */
module Interpolate {
  import opened Notes
  import opened Melody
  import opened Features
  import opened Transition

  /** The notes moved `d` ticks later. */
  function Shifted(s: seq<Note>, d: int): (r: seq<Note>)
    ensures |r| == |s|
  {
    seq(|s|, i requires 0 <= i < |s| => s[i].(start := s[i].start + d, end := s[i].end + d))
  }

  /** Moving keeps pitch, velocity and length, and moving back restores the notes. */
  lemma ShiftedProperties(s: seq<Note>, d: int)
    ensures forall i :: 0 <= i < |s| ==>
      && Shifted(s, d)[i].pitch == s[i].pitch && Shifted(s, d)[i].velocity == s[i].velocity
      && Duration(Shifted(s, d)[i]) == Duration(s[i])
      && Shifted(s, d)[i].start == s[i].start + d
    ensures Shifted(Shifted(s, d), -d) == s
    ensures AllWellFormed(s) && 0 <= d ==> AllWellFormed(Shifted(s, d))
  {
    var back := Shifted(Shifted(s, d), -d);
    assert forall i :: 0 <= i < |s| ==> back[i] == s[i];
  }

  /** Moves every note of the array `d` ticks later, onset and release alike. */
  method ShiftInPlace(a: array<Note>, d: int)
    modifies a
    ensures a[..] == Shifted(old(a[..]), d)
  {
    for i := 0 to a.Length
      invariant forall k :: 0 <= k < i ==> a[k] == old(a[k]).(start := old(a[k]).start + d, end := old(a[k]).end + d)
      invariant forall k :: i <= k < a.Length ==> a[k] == old(a[k])
    {
      a[i] := a[i].(start := a[i].start + d, end := a[i].end + d);
    }
  }

  /** The melody of well-formed notes is made of well-formed notes. */
  lemma MelodyWellFormed(notes: seq<Note>)
    requires AllWellFormed(notes)
    ensures AllWellFormed(MelodyOf(notes))
  {
    MelodyShape(notes);
  }

  /** The gap between the two fragments: from the release of the last begin-melody note,
      `length` bars long. */
  function GapOf(beginMelody: seq<Note>, endMelody: seq<Note>, length: int): Gap
    requires |beginMelody| > 0 && |endMelody| > 0
  {
    var last := beginMelody[|beginMelody| - 1];
    Gap(last.end, last.end + length * BarTicks,
        AverageDuration(beginMelody), AverageDuration(endMelody),
        last.velocity, endMelody[0].velocity)
  }

  /** The sample points the spline is fitted to: onsets (the end melody's moved behind the
      gap) against pitches. */
  function CurveOf(beginMelody: seq<Note>, endMelody: seq<Note>, beginOfEnd: int): Curve {
    Curve(SamplePoints(beginMelody, endMelody, beginOfEnd), Pitches(beginMelody) + Pitches(endMelody))
  }

  /** The first spline evaluation fails: the loop's first test lets a note through, and
      the fit is handed at most three samples, while a cubic spline needs more. */
  predicate SplineFitFails(beginMelody: seq<Note>, endMelody: seq<Note>, length: int)
    requires |beginMelody| > 0 && |endMelody| > 0 && length != 0
  {
    var g := GapOf(beginMelody, endMelody, length);
    Fits(g, g.endOfBegin as real) && |SamplePoints(beginMelody, endMelody, g.beginOfEnd)| < 4
  }

  /** The fit fails exactly when the begin average fits into the gap and the two melodies
      have fewer than four notes together; a gap of negative length never calls the fit. */
  lemma SplineFitFailsExactly(beginMelody: seq<Note>, endMelody: seq<Note>, length: int)
    requires AllWellFormed(beginMelody) && AllWellFormed(endMelody)
    requires |beginMelody| > 0 && |endMelody| > 0 && length != 0
    ensures SplineFitFails(beginMelody, endMelody, length)
      <==> AverageDuration(beginMelody) <= length * BarTicks && |beginMelody| + |endMelody| < 4
    ensures length < 0 ==> !SplineFitFails(beginMelody, endMelody, length)
  {
    var g := GapOf(beginMelody, endMelody, length);
    AverageDurationNonNegative(beginMelody);
    AverageDurationNonNegative(endMelody);
    FirstFit(g);
  }

  /** What `main` hands to the MIDI writer, or the fault it stops with. */
  function Interpolation(beginNotes: seq<Note>, endNotes: seq<Note>, length: int, spline: Spline): Result<seq<Note>>
    requires AllWellFormed(beginNotes) && AllWellFormed(endNotes)
  {
    var beginMelody := MelodyOf(beginNotes);
    var endMelody := MelodyOf(endNotes);
    if |beginMelody| == 0 then Err(EmptyBeginMelody)
    else if |endMelody| == 0 then Err(EmptyEndMelody)
    else if length == 0 then Err(ZeroLengthGap)
    else
      var g := GapOf(beginMelody, endMelody, length);
      MelodyWellFormed(beginNotes);
      MelodyWellFormed(endNotes);
      AverageDurationNonNegative(beginMelody);
      AverageDurationNonNegative(endMelody);
      if SplineFitFails(beginMelody, endMelody, length) then Err(TooFewSamples)
      else Ok(beginNotes
         + Schedule(g, CurveOf(beginMelody, endMelody, g.beginOfEnd), spline, g.endOfBegin as real)
         + Shifted(endNotes, g.beginOfEnd))
  }

  /** `Interpolation` once both melodies have notes and the gap a length, with the gap
      spelled out. */
  lemma InterpolationOk(beginNotes: seq<Note>, endNotes: seq<Note>, length: int, spline: Spline)
    requires AllWellFormed(beginNotes) && AllWellFormed(endNotes)
    requires |MelodyOf(beginNotes)| > 0 && |MelodyOf(endNotes)| > 0 && length != 0
    ensures var g := GapOf(MelodyOf(beginNotes), MelodyOf(endNotes), length);
      && Schedulable(g)
      && Interpolation(beginNotes, endNotes, length, spline)
         == if SplineFitFails(MelodyOf(beginNotes), MelodyOf(endNotes), length) then Err(TooFewSamples)
            else Ok(beginNotes
               + Schedule(g, CurveOf(MelodyOf(beginNotes), MelodyOf(endNotes), g.beginOfEnd), spline, g.endOfBegin as real)
               + Shifted(endNotes, g.beginOfEnd))
  {
    MelodyWellFormed(beginNotes);
    MelodyWellFormed(endNotes);
    AverageDurationNonNegative(MelodyOf(beginNotes));
    AverageDurationNonNegative(MelodyOf(endNotes));
  }

  /** `main` stops before writing exactly when a fragment has no notes (the average divides
      by the melody length), the gap has length zero (the blend weight divides by the gap
      length), or a first transition note is placed while there are fewer than four samples
      to fit the spline to, and reports the first of these in program order. Whether the MIDI
      writer then accepts the output is not part of the model. */
  lemma InterpolationErrors(beginNotes: seq<Note>, endNotes: seq<Note>, length: int, spline: Spline)
    requires AllWellFormed(beginNotes) && AllWellFormed(endNotes)
    ensures var r := Interpolation(beginNotes, endNotes, length, spline);
      && (r.Err? <==>
            || |beginNotes| == 0 || |endNotes| == 0 || length == 0
            || (&& |MelodyOf(beginNotes)| > 0
                && AverageDuration(MelodyOf(beginNotes)) <= length * BarTicks
                && |MelodyOf(beginNotes)| + |MelodyOf(endNotes)| < 4))
      && (|beginNotes| == 0 ==> r == Err(EmptyBeginMelody))
      && (|beginNotes| > 0 && |endNotes| == 0 ==> r == Err(EmptyEndMelody))
      && (|beginNotes| > 0 && |endNotes| > 0 && length == 0 ==> r == Err(ZeroLengthGap))
      && (|beginNotes| > 0 && |endNotes| > 0 && length != 0 && r.Err? ==> r == Err(TooFewSamples))
  {
    MelodyShape(beginNotes);
    MelodyShape(endNotes);
    if |beginNotes| > 0 && |endNotes| > 0 && length != 0 {
      MelodyWellFormed(beginNotes);
      MelodyWellFormed(endNotes);
      SplineFitFailsExactly(MelodyOf(beginNotes), MelodyOf(endNotes), length);
    }
  }

  /** On success the output is the begin notes unchanged, then the transition notes, each
      inside the gap with its length and velocity between the fragments' values and 20
      ticks after the previous one, then the end notes moved behind the gap. A gap of
      negative length has no transition notes. */
  lemma InterpolationLayout(beginNotes: seq<Note>, endNotes: seq<Note>, length: int, spline: Spline)
    requires AllWellFormed(beginNotes) && AllWellFormed(endNotes)
    requires |MelodyOf(beginNotes)| > 0 && |MelodyOf(endNotes)| > 0 && length != 0
    ensures var g := GapOf(MelodyOf(beginNotes), MelodyOf(endNotes), length);
      var r := Interpolation(beginNotes, endNotes, length, spline);
      r.Ok? ==>
      && |beginNotes| + |endNotes| <= |r.value|
      && r.value[..|beginNotes|] == beginNotes
      && r.value[|r.value| - |endNotes|..] == Shifted(endNotes, g.beginOfEnd)
      && (forall i :: |beginNotes| <= i < |r.value| - |endNotes| ==> Placed(g, r.value[i]))
      && (forall i :: |beginNotes| <= i < |r.value| - |endNotes| - 1 ==>
            r.value[i + 1].start == r.value[i].end + 20)
      && (length < 0 ==> |r.value| == |beginNotes| + |endNotes|)
  {
    var beginMelody := MelodyOf(beginNotes);
    var endMelody := MelodyOf(endNotes);
    var g := GapOf(beginMelody, endMelody, length);
    MelodyWellFormed(beginNotes);
    MelodyWellFormed(endNotes);
    AverageDurationNonNegative(beginMelody);
    AverageDurationNonNegative(endMelody);
    var p := g.endOfBegin as real;
    var t := Schedule(g, CurveOf(beginMelody, endMelody, g.beginOfEnd), spline, p);
    ScheduleWithinGap(g, CurveOf(beginMelody, endMelody, g.beginOfEnd), spline, p);
    ScheduleSpacing(g, CurveOf(beginMelody, endMelody, g.beginOfEnd), spline, p);
    var out := beginNotes + t + Shifted(endNotes, g.beginOfEnd);
    assert Interpolation(beginNotes, endNotes, length, spline).Ok? ==>
      Interpolation(beginNotes, endNotes, length, spline) == Ok(out);
    assert forall i :: |beginNotes| <= i < |out| - |endNotes| ==> out[i] == t[i - |beginNotes|];
    assert out[..|beginNotes|] == beginNotes;
    assert out[|out| - |endNotes|..] == Shifted(endNotes, g.beginOfEnd);
  }

  /** For a gap of positive length the spline is fitted to strictly increasing x samples. */
  lemma SplineSamplesIncreasing(beginNotes: seq<Note>, endNotes: seq<Note>, length: int)
    requires AllWellFormed(beginNotes) && AllWellFormed(endNotes)
    requires |beginNotes| > 0 && length > 0
    ensures var beginMelody := MelodyOf(beginNotes);
      |beginMelody| > 0 &&
      Increasing(SamplePoints(beginMelody, MelodyOf(endNotes),
                              beginMelody[|beginMelody| - 1].end + length * BarTicks))
  {
    MelodyShape(beginNotes);
    MelodyShape(endNotes);
    MelodyWellFormed(beginNotes);
    MelodyWellFormed(endNotes);
    SamplePointsIncreasing(MelodyOf(beginNotes), MelodyOf(endNotes), length);
  }

  /** `main(begin, end, length, outfile)` on the two parsed note lists: reduce both to
      melodies, collect the averages and the sample points, generate the transition, move
      the end notes behind the gap and put the three parts together. The end notes are
      moved in place; the output holds them as they are afterwards. */
  method Interpolate(beginNotes: array<Note>, endNotes: array<Note>, length: int, spline: Spline)
    returns (result: Result<seq<Note>>)
    requires beginNotes != endNotes
    requires AllWellFormed(beginNotes[..]) && AllWellFormed(endNotes[..])
    modifies endNotes
    ensures result == Interpolation(old(beginNotes[..]), old(endNotes[..]), length, spline)
    ensures result.Ok? ==> result.value[|result.value| - endNotes.Length..] == endNotes[..]
    ensures result.Err? ==> endNotes[..] == old(endNotes[..])
  {
    var beginMelody := ReadMelody(beginNotes);
    var endMelody := ReadMelody(endNotes);

    var beginTotal, xs, ys := AccumulateFragment(beginMelody, 0, [], []);
    if |beginMelody| == 0 {
      return Err(EmptyBeginMelody);
    }
    var beginAvg := beginTotal / |beginMelody|;

    var endOfBegin := beginMelody[|beginMelody| - 1].end;
    var beginOfEnd := endOfBegin + length * 460 * 4;

    var endTotal, xs', ys' := AccumulateFragment(endMelody, beginOfEnd, xs, ys);
    if |endMelody| == 0 {
      return Err(EmptyEndMelody);
    }
    var endAvg := endTotal / |endMelody|;

    var prefix := beginNotes[..];
    if length == 0 {
      return Err(ZeroLengthGap);
    }

    var g := Gap(endOfBegin, beginOfEnd, beginAvg, endAvg,
                 beginMelody[|beginMelody| - 1].velocity, endMelody[0].velocity);
    assert g == GapOf(beginMelody, endMelody, length);
    var c := Curve(xs', ys');
    assert c == CurveOf(beginMelody, endMelody, beginOfEnd);
    InterpolationOk(prefix, endNotes[..], length, spline);
    if Fits(g, endOfBegin as real) && |xs'| < 4 {
      // the first pass of the loop evaluates the spline, which rejects so few samples
      return Err(TooFewSamples);
    }
    var generated := Transition.Transition(g, c, spline);

    ShiftInPlace(endNotes, beginOfEnd);
    result := Ok(prefix + generated + endNotes[..]);
  }
}
