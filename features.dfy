/** Per-fragment features of `main`: the floor-average note length and the spline's
    sample points. */
module Features {
  import opened Notes
  import opened Melody

  /** Ticks per bar: 460 ticks per beat, four beats. */
  const BarTicks: int := 460 * 4

  /** Sum of the note lengths, accumulated from the first note on. */
  function TotalDuration(s: seq<Note>): int {
    if s == [] then 0 else TotalDuration(s[..|s| - 1]) + Duration(s[|s| - 1])
  }

  /** The mean note length, rounded down as integer division does. */
  function AverageDuration(s: seq<Note>): (r: int)
    requires |s| > 0
    ensures r * |s| <= TotalDuration(s) < (r + 1) * |s|
  {
    TotalDuration(s) / |s|
  }

  /** The x samples of one fragment: each onset moved by `offset`. */
  function Onsets(s: seq<Note>, offset: int): (r: seq<int>)
    ensures |r| == |s|
  {
    seq(|s|, i requires 0 <= i < |s| => s[i].start + offset)
  }

  /** The y samples of one fragment: the pitches. */
  function Pitches(s: seq<Note>): (r: seq<int>)
    ensures |r| == |s|
  {
    seq(|s|, i requires 0 <= i < |s| => s[i].pitch)
  }

  predicate Increasing(xs: seq<int>) {
    forall i, j :: 0 <= i < j < |xs| ==> xs[i] < xs[j]
  }

  /** `Increasing` is `StrictlyIncreasing` read off the x samples: a melody's onsets rise
      strictly exactly when its samples do, whatever the offset. */
  lemma OnsetsIncreasing(s: seq<Note>, offset: int)
    ensures StrictlyIncreasing(s) <==> Increasing(Onsets(s, offset))
  {
    var xs := Onsets(s, offset);
    assert forall i :: 0 <= i < |s| ==> xs[i] == s[i].start + offset;
  }

  /** Note lengths within [lo, hi] give a total within [lo, hi] times the count. */
  lemma {:induction false} TotalDurationBounds(s: seq<Note>, lo: int, hi: int)
    requires forall i :: 0 <= i < |s| ==> lo <= Duration(s[i]) <= hi
    ensures lo * |s| <= TotalDuration(s) <= hi * |s|
  {
    if s != [] {
      var s' := s[..|s| - 1];
      assert forall i :: 0 <= i < |s'| ==> s'[i] == s[i];
      TotalDurationBounds(s', lo, hi);
      assert lo * |s| == lo * |s'| + lo;
      assert hi * |s| == hi * |s'| + hi;
    }
  }

  /** The floor-average lies between the shortest and the longest note length. */
  lemma AverageDurationBounds(s: seq<Note>, lo: int, hi: int)
    requires |s| > 0
    requires forall i :: 0 <= i < |s| ==> lo <= Duration(s[i]) <= hi
    ensures lo <= AverageDuration(s) <= hi
  {
    TotalDurationBounds(s, lo, hi);
    var r := AverageDuration(s);
    var n := |s|;
    if r < lo {
      assert (r + 1) * n <= lo * n by {
        assert r + 1 <= lo;
        MulMonotonic(r + 1, lo, n);
      }
    }
    if r > hi {
      assert (hi + 1) * n <= r * n by {
        MulMonotonic(hi + 1, r, n);
      }
    }
  }

  lemma MulMonotonic(a: int, b: int, n: nat)
    requires a <= b
    ensures a * n <= b * n
  {
  }

  /** Well-formed notes have a non-negative floor-average length. */
  lemma AverageDurationNonNegative(s: seq<Note>)
    requires |s| > 0 && AllWellFormed(s)
    ensures 0 <= AverageDuration(s)
  {
    TotalDurationBounds(s, 0, MaxDuration(s));
    AverageDurationBounds(s, 0, MaxDuration(s));
  }

  function MaxDuration(s: seq<Note>): (m: int)
    requires |s| > 0
    ensures forall i :: 0 <= i < |s| ==> Duration(s[i]) <= m
  {
    if |s| == 1 then Duration(s[0])
    else var m := MaxDuration(s[1..]); if Duration(s[0]) > m then Duration(s[0]) else m
  }

  /** One pass of `main` over a melody: add up the note lengths and append each onset,
      moved by `offset`, and each pitch to the sample lists. */
  method AccumulateFragment(melody: seq<Note>, offset: int, xs: seq<int>, ys: seq<int>)
    returns (total: int, xs': seq<int>, ys': seq<int>)
    ensures total == TotalDuration(melody)
    ensures xs' == xs + Onsets(melody, offset)
    ensures ys' == ys + Pitches(melody)
  {
    total, xs', ys' := 0, xs, ys;
    for i := 0 to |melody|
      invariant total == TotalDuration(melody[..i])
      invariant xs' == xs + Onsets(melody[..i], offset)
      invariant ys' == ys + Pitches(melody[..i])
    {
      var note := melody[i];
      assert melody[..i + 1][..i] == melody[..i];
      total := total + Duration(note);
      xs' := xs' + [note.start + offset];
      ys' := ys' + [note.pitch];
    }
    assert melody[..|melody|] == melody;
  }

  /** The x samples handed to the spline: the begin melody's onsets, then the end
      melody's onsets moved by `beginOfEnd`. */
  function SamplePoints(beginMelody: seq<Note>, endMelody: seq<Note>, beginOfEnd: int): seq<int> {
    Onsets(beginMelody, 0) + Onsets(endMelody, beginOfEnd)
  }

  /** The spline fit needs strictly increasing x samples. They are whenever both melodies
      have strictly increasing onsets and the gap has positive length. */
  lemma SamplePointsIncreasing(beginMelody: seq<Note>, endMelody: seq<Note>, length: int)
    requires |beginMelody| > 0
    requires StrictlyIncreasing(beginMelody) && StrictlyIncreasing(endMelody)
    requires AllWellFormed(beginMelody) && AllWellFormed(endMelody)
    requires length > 0
    ensures Increasing(SamplePoints(beginMelody, endMelody,
                                    beginMelody[|beginMelody| - 1].end + length * BarTicks))
  {
    var n := |beginMelody|;
    var eob := beginMelody[n - 1].end;
    var boe := eob + length * BarTicks;
    var xs := SamplePoints(beginMelody, endMelody, boe);
    forall i, j | 0 <= i < j < |xs| ensures xs[i] < xs[j] {
      if j < n {
        assert xs[i] == beginMelody[i].start && xs[j] == beginMelody[j].start;
      } else if i < n {
        assert xs[i] == beginMelody[i].start;
        assert beginMelody[i].start <= beginMelody[n - 1].start <= eob;
        assert xs[j] == endMelody[j - n].start + boe;
      } else {
        assert xs[i] == endMelody[i - n].start + boe && xs[j] == endMelody[j - n].start + boe;
      }
    }
  }
}
