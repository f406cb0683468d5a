/** Reduction of a note list to a monophonic melody: one note, the lowest, per onset. */
module Melody {
  import opened Notes

  // ---------------------------------------------------------------------------
  // Ordering and selection predicates

  predicate Sorted(s: seq<Note>) {
    forall i, j :: 0 <= i < j < |s| ==> s[i].start <= s[j].start
  }

  predicate StrictlyIncreasing(s: seq<Note>) {
    forall i, j :: 0 <= i < j < |s| ==> s[i].start < s[j].start
  }

  /** The notes of `s` that start at tick `t`, in the order of `s`. */
  function WithStart(s: seq<Note>, t: int): seq<Note> {
    if s == [] then []
    else (if s[0].start == t then [s[0]] else []) + WithStart(s[1..], t)
  }

  /** `r` is the note at index `k` of the group `g`, no note of `g` is lower, and every
      note after it is higher. */
  predicate LastLowestAt(g: seq<Note>, r: Note, k: int) {
    && 0 <= k < |g| && g[k] == r
    && (forall j :: 0 <= j < |g| ==> r.pitch <= g[j].pitch)
    && (forall j :: k < j < |g| ==> r.pitch < g[j].pitch)
  }

  /** `r` is the last of the lowest-pitched notes of the group `g`. */
  ghost predicate IsLastLowest(g: seq<Note>, r: Note) {
    exists k :: LastLowestAt(g, r, k)
  }

  /** `a` can be obtained from `b` by deleting elements. */
  predicate IsSubsequence(a: seq<Note>, b: seq<Note>)
    decreases |b|
  {
    a == [] || (b != [] && ((a[0] == b[0] && IsSubsequence(a[1..], b[1..])) || IsSubsequence(a, b[1..])))
  }

  lemma {:induction false} WithStartEmpty(s: seq<Note>, t: int)
    requires forall i :: 0 <= i < |s| ==> s[i].start != t
    ensures WithStart(s, t) == []
  {
    if s != [] {
      WithStartEmpty(s[1..], t);
    }
  }

  lemma {:induction false} SubsequenceMembers(a: seq<Note>, b: seq<Note>)
    requires IsSubsequence(a, b)
    ensures forall i :: 0 <= i < |a| ==> a[i] in b
    decreases |b|
  {
    if a != [] {
      if a[0] == b[0] && IsSubsequence(a[1..], b[1..]) {
        SubsequenceMembers(a[1..], b[1..]);
        forall i | 0 <= i < |a| ensures a[i] in b {
          if i > 0 { assert a[i] == a[1..][i - 1]; }
        }
      } else {
        SubsequenceMembers(a, b[1..]);
      }
    }
  }

  lemma {:induction false} SubsequenceReflexive(a: seq<Note>)
    ensures IsSubsequence(a, a)
  {
    if a != [] {
      SubsequenceReflexive(a[1..]);
    }
  }

  // ---------------------------------------------------------------------------
  // list.sort(key=start): a stable sort by onset

  function Insert(n: Note, s: seq<Note>): seq<Note> {
    if s == [] || n.start <= s[0].start then [n] + s
    else [s[0]] + Insert(n, s[1..])
  }

  /** Stable insertion sort by onset, the model of Python's `list.sort(key=...)`. */
  function SortByStart(s: seq<Note>): seq<Note> {
    if s == [] then [] else Insert(s[0], SortByStart(s[1..]))
  }

  /** A lower bound on the onsets of `s` and of `n` bounds the onsets of `Insert(n, s)`. */
  lemma {:induction false} InsertBound(n: Note, s: seq<Note>, lo: int)
    requires lo <= n.start
    requires forall i :: 0 <= i < |s| ==> lo <= s[i].start
    ensures forall i :: 0 <= i < |Insert(n, s)| ==> lo <= Insert(n, s)[i].start
  {
    if s != [] && n.start > s[0].start {
      InsertBound(n, s[1..], lo);
      assert Insert(n, s) == [s[0]] + Insert(n, s[1..]);
    }
  }

  lemma {:induction false} InsertSorted(n: Note, s: seq<Note>)
    requires Sorted(s)
    ensures Sorted(Insert(n, s))
  {
    if s != [] && n.start > s[0].start {
      InsertSorted(n, s[1..]);
      InsertBound(n, s[1..], s[0].start);
      assert Insert(n, s) == [s[0]] + Insert(n, s[1..]);
    }
  }

  lemma {:induction false} InsertPermutes(n: Note, s: seq<Note>)
    ensures multiset(Insert(n, s)) == multiset(s) + multiset{n}
  {
    if s != [] && n.start > s[0].start {
      InsertPermutes(n, s[1..]);
      assert s == [s[0]] + s[1..];
    }
  }

  lemma {:induction false} InsertKeepsGroups(n: Note, s: seq<Note>, t: int)
    ensures WithStart(Insert(n, s), t) == (if n.start == t then [n] else []) + WithStart(s, t)
  {
    if s == [] || n.start <= s[0].start {
      var u := [n] + s;
      assert u[0] == n && u[1..] == s;
      assert Insert(n, s) == u;
    } else {
      InsertKeepsGroups(n, s[1..], t);
      var u := [s[0]] + Insert(n, s[1..]);
      assert u[0] == s[0] && u[1..] == Insert(n, s[1..]);
      assert Insert(n, s) == u;
      assert WithStart(u, t) == (if s[0].start == t then [s[0]] else []) + WithStart(Insert(n, s[1..]), t);
    }
  }

  /** The sort orders by onset and is a permutation. */
  lemma {:induction false} SortByStartCorrect(s: seq<Note>)
    ensures Sorted(SortByStart(s))
    ensures multiset(SortByStart(s)) == multiset(s)
  {
    if s != [] {
      SortByStartCorrect(s[1..]);
      InsertSorted(s[0], SortByStart(s[1..]));
      InsertPermutes(s[0], SortByStart(s[1..]));
      assert s == [s[0]] + s[1..];
    }
  }

  /** The sort is stable: the notes of each onset keep their relative order. */
  lemma {:induction false} SortByStartStable(s: seq<Note>, t: int)
    ensures WithStart(SortByStart(s), t) == WithStart(s, t)
  {
    if s != [] {
      SortByStartStable(s[1..], t);
      InsertKeepsGroups(s[0], SortByStart(s[1..]), t);
    }
  }

  // ---------------------------------------------------------------------------
  // The reduction loop

  /** The comparison that decides which of two notes with equal onset is deleted. */
  function Lower(c: Note, n: Note): Note {
    if c.pitch < n.pitch then c else n
  }

  /** Repeated application of `Lower` from the left over one onset group. */
  function LowestOf(c: Note, rest: seq<Note>): Note
    decreases |rest|
  {
    if rest == [] then c else LowestOf(Lower(c, rest[0]), rest[1..])
  }

  /** The note that the reduction keeps of a (non-empty) onset group. */
  function Survivor(g: seq<Note>): Note
    requires |g| > 0
  {
    LowestOf(g[0], g[1..])
  }

  /** What the reduction loop computes, step by step, on the list as it stands. */
  function Reduce(s: seq<Note>): seq<Note>
    decreases |s|
  {
    if |s| < 2 then s
    else if s[0].start == s[1].start then Reduce([Lower(s[0], s[1])] + s[2..])
    else [s[0]] + Reduce(s[1..])
  }

  /** The index in the group of the note the reduction keeps. */
  lemma {:induction false} SurvivorIndex(g: seq<Note>) returns (k: int)
    requires |g| > 0
    ensures LastLowestAt(g, Survivor(g), k)
    decreases |g|
  {
    if |g| == 1 {
      k := 0;
    } else {
      var c := Lower(g[0], g[1]);
      var h := [c] + g[2..];
      assert h[1..] == g[2..];
      assert g[1..][1..] == g[2..];
      var r := Survivor(g);
      assert r == LowestOf(c, g[2..]) == Survivor(h);
      var kh := SurvivorIndex(h);
      assert forall j :: 2 <= j < |g| ==> g[j] == h[j - 1];
      assert r.pitch <= h[0].pitch;
      k := if kh > 0 then kh + 1 else if g[0].pitch < g[1].pitch then 0 else 1;
      forall j | k < j < |g| ensures r.pitch < g[j].pitch {
        if j >= 2 {
          assert g[j] == h[j - 1];
        }
      }
    }
  }

  /** The survivor of a group is its last lowest-pitched note. */
  lemma SurvivorIsLastLowest(g: seq<Note>)
    requires |g| > 0
    ensures IsLastLowest(g, Survivor(g))
  {
    var k := SurvivorIndex(g);
  }

  /** Every note the reduction keeps comes from its input, in input order. */
  lemma {:induction false} ReduceSubsequence(s: seq<Note>)
    ensures IsSubsequence(Reduce(s), s)
    decreases |s|
  {
    if |s| < 2 {
      SubsequenceReflexive(s);
    } else if s[0].start == s[1].start {
      var h := [Lower(s[0], s[1])] + s[2..];
      ReduceSubsequence(h);
      var a := Reduce(h);
      if a != [] {
        assert h[1..] == s[2..];
        if s[0].pitch < s[1].pitch {
          if a[0] == h[0] && IsSubsequence(a[1..], h[1..]) {
            assert IsSubsequence(a[1..], s[2..]);
            assert s[1..][1..] == s[2..];
            assert IsSubsequence(a[1..], s[1..]);
          } else {
            assert IsSubsequence(a, s[2..]);
            assert s[1..][1..] == s[2..];
            assert IsSubsequence(a, s[1..]);
          }
        } else {
          assert h == s[1..];
        }
      }
    } else {
      ReduceSubsequence(s[1..]);
      assert ([s[0]] + Reduce(s[1..]))[1..] == Reduce(s[1..]);
    }
  }

  lemma ReduceMembers(s: seq<Note>)
    ensures forall i :: 0 <= i < |Reduce(s)| ==> Reduce(s)[i] in s
  {
    ReduceSubsequence(s);
    SubsequenceMembers(Reduce(s), s);
  }

  lemma SortedTail(s: seq<Note>, c: Note)
    requires |s| >= 2 && Sorted(s) && c.start == s[0].start
    ensures Sorted([c] + s[2..])
  {
  }

  /** On an onset-sorted list, the kept onsets strictly increase. */
  lemma {:induction false} ReduceStrictlyIncreasing(s: seq<Note>)
    requires Sorted(s)
    ensures StrictlyIncreasing(Reduce(s))
    decreases |s|
  {
    if |s| >= 2 {
      if s[0].start == s[1].start {
        SortedTail(s, Lower(s[0], s[1]));
        ReduceStrictlyIncreasing([Lower(s[0], s[1])] + s[2..]);
      } else {
        ReduceStrictlyIncreasing(s[1..]);
        ReduceMembers(s[1..]);
        var r := Reduce(s[1..]);
        forall i | 0 <= i < |r| ensures s[0].start < r[i].start {
          var j :| 0 <= j < |s[1..]| && s[1..][j] == r[i];
          assert s[j + 1] == r[i];
        }
      }
    }
  }

  /** Every onset of the input keeps a note (exactly one, by `ReduceStrictlyIncreasing`). */
  lemma {:induction false} ReduceCoversStart(s: seq<Note>, j: int)
    requires 0 <= j < |s|
    ensures exists i :: 0 <= i < |Reduce(s)| && Reduce(s)[i].start == s[j].start
    decreases |s|
  {
    var r := Reduce(s);
    if |s| < 2 {
      assert r[j] == s[j];
    } else if s[0].start == s[1].start {
      var h := [Lower(s[0], s[1])] + s[2..];
      assert r == Reduce(h);
      var j' := if j >= 2 then j - 1 else 0;
      assert h[j'].start == s[j].start;
      ReduceCoversStart(h, j');
    } else {
      var t := Reduce(s[1..]);
      assert r == [s[0]] + t;
      if j == 0 {
        assert r[0].start == s[0].start;
      } else {
        ReduceCoversStart(s[1..], j - 1);
        assert s[1..][j - 1] == s[j];
        var i :| 0 <= i < |t| && t[i].start == s[j].start;
        assert r[i + 1] == t[i];
      }
    }
  }

  lemma SortedRestAfter(s: seq<Note>)
    requires |s| >= 2 && Sorted(s) && s[0].start != s[1].start
    ensures forall i :: 0 <= i < |s[1..]| ==> s[1..][i].start != s[0].start
  {
  }

  /** Merging the first two notes of one onset into the lower of them leaves the survivor
      of every onset group as it was. */
  lemma MergeKeepsSurvivor(s: seq<Note>, t: int)
    requires |s| >= 2 && s[0].start == s[1].start
    requires |WithStart([Lower(s[0], s[1])] + s[2..], t)| > 0
    ensures |WithStart(s, t)| > 0
    ensures Survivor(WithStart(s, t)) == Survivor(WithStart([Lower(s[0], s[1])] + s[2..], t))
  {
    var c := Lower(s[0], s[1]);
    var h := [c] + s[2..];
    assert h[1..] == s[2..] && s[1..][1..] == s[2..];
    var u := WithStart(s[2..], t);
    if t == c.start {
      assert WithStart(s, t) == [s[0], s[1]] + u;
      assert WithStart(h, t) == [c] + u;
      assert ([s[0], s[1]] + u)[1..] == [s[1]] + u;
      assert ([s[1]] + u)[1..] == u;
      assert ([c] + u)[1..] == u;
    } else {
      assert WithStart(s, t) == u;
      assert WithStart(h, t) == u;
    }
  }

  /** On an onset-sorted list, each kept note is the survivor of its onset group. */
  lemma {:induction false} ReduceKeepsSurvivors(s: seq<Note>)
    requires Sorted(s)
    ensures forall i :: 0 <= i < |Reduce(s)| ==>
      |WithStart(s, Reduce(s)[i].start)| > 0 && Reduce(s)[i] == Survivor(WithStart(s, Reduce(s)[i].start))
    decreases |s|
  {
    var r := Reduce(s);
    if |s| == 1 {
      assert WithStart(s, s[0].start) == [s[0]] + WithStart(s[1..], s[0].start);
    } else if |s| >= 2 {
      if s[0].start == s[1].start {
        var h := [Lower(s[0], s[1])] + s[2..];
        SortedTail(s, Lower(s[0], s[1]));
        ReduceKeepsSurvivors(h);
        assert r == Reduce(h);
        forall i | 0 <= i < |r|
          ensures |WithStart(s, r[i].start)| > 0 && r[i] == Survivor(WithStart(s, r[i].start))
        {
          MergeKeepsSurvivor(s, r[i].start);
        }
      } else {
        var t0 := s[0].start;
        ReduceKeepsSurvivors(s[1..]);
        SortedRestAfter(s);
        WithStartEmpty(s[1..], t0);
        var rest := Reduce(s[1..]);
        assert r == [s[0]] + rest;
        assert WithStart(s, t0) == [s[0]] + WithStart(s[1..], t0);
        forall i | 0 <= i < |r|
          ensures |WithStart(s, r[i].start)| > 0 && r[i] == Survivor(WithStart(s, r[i].start))
        {
          if i > 0 {
            assert r[i] == rest[i - 1];
            assert WithStart(s, r[i].start) == WithStart(s[1..], r[i].start);
          }
        }
      }
    }
  }

  lemma {:induction false} ReduceEmpty(s: seq<Note>)
    ensures |Reduce(s)| == 0 <==> |s| == 0
    decreases |s|
  {
    if |s| >= 2 {
      if s[0].start == s[1].start {
        ReduceEmpty([Lower(s[0], s[1])] + s[2..]);
      }
    }
  }

  /** The function the rest of the model uses for the melody of a note list. */
  function MelodyOf(notes: seq<Note>): seq<Note> {
    Reduce(SortByStart(notes))
  }

  /** The part of `MelodyOfProperties` the rest of the model uses most: the melody has
      strictly increasing onsets, is made of notes of the input, and is empty exactly
      when the input is. */
  lemma MelodyShape(notes: seq<Note>)
    ensures StrictlyIncreasing(MelodyOf(notes))
    ensures forall i :: 0 <= i < |MelodyOf(notes)| ==> MelodyOf(notes)[i] in notes
    ensures |MelodyOf(notes)| == 0 <==> |notes| == 0
  {
    var sorted := SortByStart(notes);
    SortByStartCorrect(notes);
    ReduceStrictlyIncreasing(sorted);
    ReduceMembers(sorted);
    ReduceEmpty(sorted);
    assert |sorted| == |notes| by {
      assert |multiset(sorted)| == |multiset(notes)|;
    }
    forall i | 0 <= i < |MelodyOf(notes)| ensures MelodyOf(notes)[i] in notes {
      assert MelodyOf(notes)[i] in multiset(sorted);
    }
  }

  /** The melody of a note list: strictly increasing onsets, drawn in order from the
      sorted copy, one note for every onset of the input, and that note the last of the
      lowest-pitched notes of its onset in the order of the input. */
  lemma MelodyOfProperties(notes: seq<Note>)
    ensures StrictlyIncreasing(MelodyOf(notes))
    ensures IsSubsequence(MelodyOf(notes), SortByStart(notes))
    ensures forall i :: 0 <= i < |MelodyOf(notes)| ==>
      IsLastLowest(WithStart(notes, MelodyOf(notes)[i].start), MelodyOf(notes)[i])
    ensures forall j :: 0 <= j < |notes| ==>
      exists i :: 0 <= i < |MelodyOf(notes)| && MelodyOf(notes)[i].start == notes[j].start
    ensures |MelodyOf(notes)| == 0 <==> |notes| == 0
  {
    var sorted := SortByStart(notes);
    var melody := MelodyOf(notes);
    MelodyShape(notes);
    SortByStartCorrect(notes);
    ReduceSubsequence(sorted);
    ReduceKeepsSurvivors(sorted);
    forall i | 0 <= i < |melody|
      ensures IsLastLowest(WithStart(notes, melody[i].start), melody[i])
    {
      SortByStartStable(notes, melody[i].start);
      SurvivorIsLastLowest(WithStart(sorted, melody[i].start));
    }
    forall j | 0 <= j < |notes|
      ensures exists i :: 0 <= i < |melody| && melody[i].start == notes[j].start
    {
      assert notes[j] in multiset(sorted);
      var k :| 0 <= k < |sorted| && sorted[k] == notes[j];
      ReduceCoversStart(sorted, k);
    }
  }

  /** One step of the reduction loop on the list from the cursor on. */
  lemma ReduceStep(t: seq<Note>)
    requires |t| >= 2
    ensures t[0].start == t[1].start && t[0].pitch < t[1].pitch ==> Reduce(t) == Reduce([t[0]] + t[2..])
    ensures t[0].start == t[1].start && t[0].pitch >= t[1].pitch ==> Reduce(t) == Reduce(t[1..])
    ensures t[0].start != t[1].start ==> Reduce(t) == [t[0]] + Reduce(t[1..])
  {
    if t[0].start == t[1].start && t[0].pitch >= t[1].pitch {
      assert [t[1]] + t[2..] == t[1..];
    }
  }

  /** Deleting the element at `i + d` (the right one of the two for d = 1, the left one for
      d = 0) of two notes with the same onset leaves what the loop still has to produce
      unchanged. */
  lemma DeleteStep(m0: seq<Note>, i: int, d: int)
    requires 0 <= i && i + 1 < |m0| && 0 <= d <= 1
    requires m0[i].start == m0[i + 1].start
    requires d == 1 <==> m0[i].pitch < m0[i + 1].pitch
    ensures var m := m0[..i + d] + m0[i + d + 1..];
      m[..i] + Reduce(m[i..]) == m0[..i] + Reduce(m0[i..])
  {
    var m := m0[..i + d] + m0[i + d + 1..];
    var t := m0[i..];
    ReduceStep(t);
    assert m[..i] == m0[..i];
    if d == 1 {
      assert m[i..] == [t[0]] + t[2..];
    } else {
      assert m[i..] == t[1..];
    }
  }

  /** Moving the cursor past a note whose onset differs from the next one's. */
  lemma KeepStep(m: seq<Note>, i: int)
    requires 0 <= i && i + 1 < |m|
    requires m[i].start != m[i + 1].start
    ensures m[..i + 1] + Reduce(m[i + 1..]) == m[..i] + Reduce(m[i..])
  {
    var t := m[i..];
    ReduceStep(t);
    assert m[..i + 1] == m[..i] + [t[0]];
    assert m[i + 1..] == t[1..];
  }

  /** `read_midi` after loading: sort a copy of the notes by onset, then delete notes in
      place until each onset keeps only its lowest-pitched note. `notes` itself is not
      changed (the method has no `modifies` clause). */
  method ReadMelody(notes: array<Note>) returns (melody: seq<Note>)
    ensures melody == MelodyOf(notes[..])
  {
    ghost var sorted := SortByStart(notes[..]);
    melody := SortByStart(notes[..]);
    var index := 0;
    while index + 1 < |melody|
      invariant 0 <= index <= |melody|
      invariant melody[..index] + Reduce(melody[index..]) == Reduce(sorted)
      decreases |melody| - index
    {
      if melody[index].start == melody[index + 1].start {
        if melody[index].pitch < melody[index + 1].pitch {
          DeleteStep(melody, index, 1);
          melody := melody[..index + 1] + melody[index + 2..];
        } else {
          DeleteStep(melody, index, 0);
          melody := melody[..index] + melody[index + 1..];
        }
        continue;
      }
      KeepStep(melody, index);
      index := index + 1;
    }
    assert melody[index..] == Reduce(melody[index..]);
    assert melody == melody[..index] + melody[index..];
  }
}
