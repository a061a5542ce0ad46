/**
 The analysis of a gradebook: statistics over the marks, letter grades,
 a grade histogram and the pass/fail split.

 A `ScoreBoard` is the dict from student name to mark, in insertion order;
 a `GradeBoard` is the dict from student name to letter grade. Python raises
 on an empty dict where it divides, takes a median, a max or a min; those
 operations return `Err` with the exception's name instead.
 */
module Gradebook {
  import opened Boards
  import opened Sorting

  type ScoreBoard = seq<Entry<real>>

  datatype Grade = A | B | C | D | F

  type GradeBoard = seq<Entry<Grade>>

  /** The Python exceptions the analysis can raise. */
  datatype Error = ZeroDivisionError | StatisticsError | ValueError

  datatype Result<T> = Ok(value: T) | Err(error: Error)

  /** The pass mark of the pass/fail split. */
  const PassMark: real := 40.0

  // ---------------------------------------------------------------------------
  // Average

  /** Python's `sum`: a left-to-right running total starting at 0. */
  function Sum(s: seq<real>): real
  {
    if s == [] then 0.0 else Sum(s[..|s| - 1]) + s[|s| - 1]
  }

  /** A total of marks that all lie in `[lo, hi]` lies in `[n * lo, n * hi]`. */
  lemma {:induction false} SumBounds(s: seq<real>, lo: real, hi: real)
    requires forall i :: 0 <= i < |s| ==> lo <= s[i] <= hi
    ensures (|s| as real) * lo <= Sum(s) <= (|s| as real) * hi
  {
    if s != [] {
      SumBounds(s[..|s| - 1], lo, hi);
    }
  }

  /** `sum(marks.values()) / len(marks)`; an empty dict divides by zero. */
  function CalculateAverage(b: ScoreBoard): (r: Result<real>)
    ensures r.Err? <==> |b| == 0
    ensures r.Err? ==> r.error == ZeroDivisionError
    ensures r.Ok? ==> r.value * (|b| as real) == Sum(Values(b))
  {
    if |b| == 0 then Err(ZeroDivisionError) else Ok(Sum(Values(b)) / (|b| as real))
  }

  /** Dividing a total that lies in `[n * lo, n * hi]` by `n` lands in `[lo, hi]`. */
  lemma QuotientBounds(total: real, n: real, lo: real, hi: real)
    requires n > 0.0
    requires n * lo <= total <= n * hi
    ensures lo <= total / n <= hi
  {
  }

  /** The mean of marks that all lie in `[lo, hi]` lies in `[lo, hi]`. */
  lemma MeanWithin(vs: seq<real>, lo: real, hi: real)
    requires |vs| > 0
    requires forall i :: 0 <= i < |vs| ==> lo <= vs[i] <= hi
    ensures lo <= Sum(vs) / (|vs| as real) <= hi
  {
    SumBounds(vs, lo, hi);
    QuotientBounds(Sum(vs), |vs| as real, lo, hi);
  }

  /** The average lies between the lowest and the highest mark. */
  lemma AverageBetweenMinAndMax(b: ScoreBoard)
    requires |b| > 0
    ensures CalculateAverage(b).Ok?
    ensures b[MinIndex(b, |b|)].value <= CalculateAverage(b).value <= b[MaxIndex(b, |b|)].value
  {
    var lo, hi := b[MinIndex(b, |b|)].value, b[MaxIndex(b, |b|)].value;
    var vs := Values(b);
    forall i | 0 <= i < |vs|
      ensures lo <= vs[i] <= hi
    {
      assert vs[i] == b[i].value;
    }
    MeanWithin(vs, lo, hi);
  }

  // ---------------------------------------------------------------------------
  // Median

  /** The middle of an ascending sequence: the middle element for an odd
      length, the mean of the two middle elements for an even one. */
  function Middle(s: seq<real>): real
    requires |s| > 0
  {
    var n := |s|;
    if n % 2 == 1 then s[n / 2] else (s[n / 2 - 1] + s[n / 2]) / 2.0
  }

  /** `statistics.median(marks.values())`; an empty dict has no median. */
  function CalculateMedian(b: ScoreBoard): (r: Result<real>)
    ensures r.Err? <==> |b| == 0
    ensures r.Err? ==> r.error == StatisticsError
    ensures r.Ok? ==> exists s :: SortedAsc(s) && multiset(s) == multiset(Values(b)) && |s| > 0 && r.value == Middle(s)
  {
    if |b| == 0 then Err(StatisticsError) else Ok(Middle(Sort(Values(b))))
  }

  /** The median depends only on the marks, not on the order of the entries
      nor on whose marks they are. */
  lemma MedianOrderIndependent(b: ScoreBoard, c: ScoreBoard)
    requires multiset(Values(b)) == multiset(Values(c))
    ensures CalculateMedian(b) == CalculateMedian(c)
  {
    assert |Values(b)| == |multiset(Values(b))| == |multiset(Values(c))| == |Values(c)|;
    SortedUnique(Sort(Values(b)), Sort(Values(c)));
  }

  /** Every element of a rearrangement of the marks is one of the marks, so it
      lies between the lowest and the highest mark. */
  lemma SortedWithinBounds(b: ScoreBoard, s: seq<real>, k: nat)
    requires |b| > 0
    requires multiset(s) == multiset(Values(b))
    requires k < |s|
    ensures b[MinIndex(b, |b|)].value <= s[k] <= b[MaxIndex(b, |b|)].value
  {
    assert s[k] in multiset(Values(b));
    var i :| 0 <= i < |b| && Values(b)[i] == s[k];
  }

  /** The middle of values that all lie in `[lo, hi]` lies in `[lo, hi]`. */
  lemma MiddleWithin(s: seq<real>, lo: real, hi: real)
    requires |s| > 0
    requires forall k :: 0 <= k < |s| ==> lo <= s[k] <= hi
    ensures lo <= Middle(s) <= hi
  {
    var n := |s|;
    if n % 2 == 0 {
      assert lo <= s[n / 2 - 1] <= hi && lo <= s[n / 2] <= hi;
    }
  }

  /** The median lies between the lowest and the highest mark. */
  lemma MedianBetweenMinAndMax(b: ScoreBoard)
    requires |b| > 0
    ensures CalculateMedian(b).Ok?
    ensures b[MinIndex(b, |b|)].value <= CalculateMedian(b).value <= b[MaxIndex(b, |b|)].value
  {
    var s := Sort(Values(b));
    assert |s| == |b| by { assert |multiset(s)| == |multiset(Values(b))|; }
    var lo, hi := b[MinIndex(b, |b|)].value, b[MaxIndex(b, |b|)].value;
    forall k | 0 <= k < |s|
      ensures lo <= s[k] <= hi
    {
      SortedWithinBounds(b, s, k);
    }
    MiddleWithin(s, lo, hi);
  }

  // ---------------------------------------------------------------------------
  // Highest and lowest scorer

  /** Among the first `n` entries, entry `i` holds the highest mark and no
      earlier entry reaches it: the entry Python's `max` returns on ties. */
  predicate IsFirstMax(b: ScoreBoard, n: nat, i: int)
    requires n <= |b|
  {
    && 0 <= i < n
    && (forall j :: 0 <= j < n ==> b[j].value <= b[i].value)
    && (forall j :: 0 <= j < i ==> b[j].value < b[i].value)
  }

  /** Among the first `n` entries, entry `i` holds the lowest mark and no
      earlier entry gets down to it: the entry Python's `min` returns on ties. */
  predicate IsFirstMin(b: ScoreBoard, n: nat, i: int)
    requires n <= |b|
  {
    && 0 <= i < n
    && (forall j :: 0 <= j < n ==> b[i].value <= b[j].value)
    && (forall j :: 0 <= j < i ==> b[i].value < b[j].value)
  }

  /** The position Python's `max` picks among the first `n` entries: it keeps
      the current best and replaces it only by a strictly greater mark. */
  function MaxIndex(b: ScoreBoard, n: nat): (k: nat)
    requires 0 < n <= |b|
    ensures IsFirstMax(b, n, k)
  {
    if n == 1 then 0
    else
      var k := MaxIndex(b, n - 1);
      if b[n - 1].value > b[k].value then n - 1 else k
  }

  /** The position Python's `min` picks among the first `n` entries: it
      replaces the current best only by a strictly smaller mark. */
  function MinIndex(b: ScoreBoard, n: nat): (k: nat)
    requires 0 < n <= |b|
    ensures IsFirstMin(b, n, k)
  {
    if n == 1 then 0
    else
      var k := MinIndex(b, n - 1);
      if b[n - 1].value < b[k].value then n - 1 else k
  }

  /** `max(marks, key=marks.get)` and that name's mark; `max` of an empty dict
      raises ValueError. */
  function FindMaxScore(b: ScoreBoard): (r: Result<(string, real)>)
    requires DistinctNames(b)
    ensures r.Err? <==> |b| == 0
    ensures r.Err? ==> r.error == ValueError
    ensures r.Ok? ==> exists i :: IsFirstMax(b, |b|, i) && r.value == (b[i].name, b[i].value)
    ensures r.Ok? ==> forall i :: IsFirstMax(b, |b|, i) ==> r.value == (b[i].name, b[i].value)
  {
    if |b| == 0 then Err(ValueError)
    else
      var k := MaxIndex(b, |b|);
      AsMapAt(b, k);
      Ok((b[k].name, AsMap(b)[b[k].name]))
  }

  /** `min(marks, key=marks.get)` and that name's mark; `min` of an empty dict
      raises ValueError. */
  function FindMinScore(b: ScoreBoard): (r: Result<(string, real)>)
    requires DistinctNames(b)
    ensures r.Err? <==> |b| == 0
    ensures r.Err? ==> r.error == ValueError
    ensures r.Ok? ==> exists i :: IsFirstMin(b, |b|, i) && r.value == (b[i].name, b[i].value)
    ensures r.Ok? ==> forall i :: IsFirstMin(b, |b|, i) ==> r.value == (b[i].name, b[i].value)
  {
    if |b| == 0 then Err(ValueError)
    else
      var k := MinIndex(b, |b|);
      AsMapAt(b, k);
      Ok((b[k].name, AsMap(b)[b[k].name]))
  }

  // ---------------------------------------------------------------------------
  // Letter grades

  /** The cascade of thresholds at 90, 80, 70 and 60. */
  function GradeOf(mark: real): (g: Grade)
    ensures g == A <==> 90.0 <= mark
    ensures g == B <==> 80.0 <= mark < 90.0
    ensures g == C <==> 70.0 <= mark < 80.0
    ensures g == D <==> 60.0 <= mark < 70.0
    ensures g == F <==> mark < 60.0
  {
    if mark >= 90.0 then A
    else if mark >= 80.0 then B
    else if mark >= 70.0 then C
    else if mark >= 60.0 then D
    else F
  }

  /** How good a grade is: A highest, F lowest. */
  function Rank(g: Grade): nat
  {
    match g
    case A => 4
    case B => 3
    case C => 2
    case D => 1
    case F => 0
  }

  /** A higher mark never receives a worse grade. */
  lemma GradeMonotone(m1: real, m2: real)
    requires m1 <= m2
    ensures Rank(GradeOf(m1)) <= Rank(GradeOf(m2))
  {
  }

  /** `assign_grades`: builds the dict of grades one name at a time. */
  method AssignGrades(marks: ScoreBoard) returns (grades: GradeBoard)
    ensures Names(grades) == Names(marks)
    ensures forall i :: 0 <= i < |grades| ==> grades[i].value == GradeOf(marks[i].value)
  {
    grades := [];
    for i := 0 to |marks|
      invariant |grades| == i
      invariant forall j :: 0 <= j < i ==> grades[j] == Entry(marks[j].name, GradeOf(marks[j].value))
    {
      grades := grades + [Entry(marks[i].name, GradeOf(marks[i].value))];
    }
  }

  /** Seen as dicts, a grade board with the names of the mark board, graded
      position by position, has the same key set and grades every key by the
      mark stored under it; its names are distinct too. */
  lemma GradeDictMatches(marks: ScoreBoard, grades: GradeBoard)
    requires DistinctNames(marks)
    requires Names(grades) == Names(marks)
    requires forall i :: 0 <= i < |grades| ==> grades[i].value == GradeOf(marks[i].value)
    ensures DistinctNames(grades)
    ensures AsMap(grades).Keys == AsMap(marks).Keys
    ensures forall n :: n in AsMap(grades) ==> AsMap(grades)[n] == GradeOf(AsMap(marks)[n])
  {
    assert |grades| == |Names(grades)| == |Names(marks)| == |marks|;
    forall i, j | 0 <= i < j < |grades|
      ensures grades[i].name != grades[j].name
    {
      assert Names(grades)[i] == marks[i].name && Names(grades)[j] == marks[j].name;
    }
    SameNamesSameKeys(grades, marks);
    AsMapKeys(grades);
    forall n | n in AsMap(grades)
      ensures AsMap(grades)[n] == GradeOf(AsMap(marks)[n])
    {
      var i :| 0 <= i < |grades| && Names(grades)[i] == n;
      AsMapAt(grades, i);
      AsMapAt(marks, i);
    }
  }

  // ---------------------------------------------------------------------------
  // Grade counts

  /** `counts.get(g, 0)`. */
  function GetOrZero(counts: map<Grade, nat>, g: Grade): nat
  {
    if g in counts then counts[g] else 0
  }

  /** The sum of all counts in a histogram. */
  function Total(counts: map<Grade, nat>): nat
  {
    GetOrZero(counts, A) + GetOrZero(counts, B) + GetOrZero(counts, C)
      + GetOrZero(counts, D) + GetOrZero(counts, F)
  }

  /** Every grade is one of the five, so their tallies add up to the length. */
  lemma {:induction false} TallySum(s: seq<Grade>)
    ensures multiset(s)[A] + multiset(s)[B] + multiset(s)[C] + multiset(s)[D] + multiset(s)[F] == |s|
  {
    if s != [] {
      TallySum(s[1..]);
      assert s == [s[0]] + s[1..];
      var m, t := multiset(s), multiset(s[1..]);
      assert m == multiset{s[0]} + t;
      match s[0]
      case A => assert m[A] == t[A] + 1 && m[B] == t[B] && m[C] == t[C] && m[D] == t[D] && m[F] == t[F];
      case B => assert m[A] == t[A] && m[B] == t[B] + 1 && m[C] == t[C] && m[D] == t[D] && m[F] == t[F];
      case C => assert m[A] == t[A] && m[B] == t[B] && m[C] == t[C] + 1 && m[D] == t[D] && m[F] == t[F];
      case D => assert m[A] == t[A] && m[B] == t[B] && m[C] == t[C] && m[D] == t[D] + 1 && m[F] == t[F];
      case F => assert m[A] == t[A] && m[B] == t[B] && m[C] == t[C] && m[D] == t[D] && m[F] == t[F] + 1;
    }
  }

  /** `count_grades`: tallies the grades in one pass over the dict's values. */
  method CountGrades(grades: GradeBoard) returns (counts: map<Grade, nat>)
    ensures forall g :: g in counts <==> g in Values(grades)
    ensures forall g :: g in counts ==> counts[g] == multiset(Values(grades))[g]
    ensures Total(counts) == |grades|
  {
    var vs := Values(grades);
    counts := map[];
    for i := 0 to |vs|
      invariant forall g :: g in counts <==> multiset(vs[..i])[g] > 0
      invariant forall g :: GetOrZero(counts, g) == multiset(vs[..i])[g]
    {
      assert vs[..i + 1] == vs[..i] + [vs[i]];
      var g := vs[i];
      counts := counts[g := GetOrZero(counts, g) + 1];
    }
    assert vs[..|vs|] == vs;
    TallySum(vs);
  }

  /** The grading pipeline of the analysis: `assign_grades` then
      `count_grades`. The counts add up to the number of students. */
  method GradeDistribution(marks: ScoreBoard) returns (grades: GradeBoard, counts: map<Grade, nat>)
    ensures Names(grades) == Names(marks)
    ensures forall i :: 0 <= i < |grades| ==> grades[i].value == GradeOf(marks[i].value)
    ensures forall g :: g in counts ==> counts[g] == multiset(Values(grades))[g]
    ensures forall g :: g in counts <==> exists i :: 0 <= i < |marks| && GradeOf(marks[i].value) == g
    ensures Total(counts) == |marks|
  {
    grades := AssignGrades(marks);
    counts := CountGrades(grades);
    assert |grades| == |Names(grades)| == |Names(marks)| == |marks|;
    forall g
      ensures g in Values(grades) <==> exists i :: 0 <= i < |marks| && GradeOf(marks[i].value) == g
    {
      if g in Values(grades) {
        var i :| 0 <= i < |grades| && Values(grades)[i] == g;
        assert GradeOf(marks[i].value) == g;
      }
      if exists i :: 0 <= i < |marks| && GradeOf(marks[i].value) == g {
        var i :| 0 <= i < |marks| && GradeOf(marks[i].value) == g;
        assert Values(grades)[i] == g;
      }
    }
  }

  // ---------------------------------------------------------------------------
  // Pass/fail split

  /** `[name for name, m in marks.items() if m >= 40]`. */
  function Passed(b: ScoreBoard): (ns: seq<string>)
    ensures forall n :: n in ns <==> exists i :: 0 <= i < |b| && b[i].name == n && b[i].value >= PassMark
  {
    if b == [] then []
    else
      assert forall i :: 1 <= i < |b| ==> b[i] == b[1..][i - 1];
      (if b[0].value >= PassMark then [b[0].name] else []) + Passed(b[1..])
  }

  /** `[name for name, m in marks.items() if m < 40]`. */
  function Failed(b: ScoreBoard): (ns: seq<string>)
    ensures forall n :: n in ns <==> exists i :: 0 <= i < |b| && b[i].name == n && b[i].value < PassMark
  {
    if b == [] then []
    else
      assert forall i :: 1 <= i < |b| ==> b[i] == b[1..][i - 1];
      (if b[0].value < PassMark then [b[0].name] else []) + Failed(b[1..])
  }

  /** `s` is an order-preserving merge of `p` and `q`: every element of `s`
      comes, in turn, from the front of `p` or from the front of `q`. */
  predicate Interleaves(s: seq<string>, p: seq<string>, q: seq<string>)
    decreases |s|
  {
    if s == [] then p == [] && q == []
    else
      || (p != [] && p[0] == s[0] && Interleaves(s[1..], p[1..], q))
      || (q != [] && q[0] == s[0] && Interleaves(s[1..], p, q[1..]))
  }

  lemma {:induction false} InterleavesLength(s: seq<string>, p: seq<string>, q: seq<string>)
    requires Interleaves(s, p, q)
    ensures |p| + |q| == |s|
    decreases |s|
  {
    if s != [] {
      if p != [] && p[0] == s[0] && Interleaves(s[1..], p[1..], q) {
        InterleavesLength(s[1..], p[1..], q);
      } else {
        InterleavesLength(s[1..], p, q[1..]);
      }
    }
  }

  /** The names, in insertion order, are exactly the passed names merged with
      the failed names, each list keeping insertion order; so the two lists'
      lengths add up to the number of students. */
  lemma {:induction false} PassFailPartition(b: ScoreBoard)
    ensures Interleaves(Names(b), Passed(b), Failed(b))
    ensures |Passed(b)| + |Failed(b)| == |b|
  {
    if b != [] {
      PassFailPartition(b[1..]);
      var ns := Names(b);
      assert ns[1..] == Names(b[1..]);
      if b[0].value >= PassMark {
        assert Passed(b) == [b[0].name] + Passed(b[1..]);
        assert Failed(b) == Failed(b[1..]);
        assert Passed(b)[1..] == Passed(b[1..]);
      } else {
        assert Passed(b) == Passed(b[1..]);
        assert Failed(b) == [b[0].name] + Failed(b[1..]);
        assert Failed(b)[1..] == Failed(b[1..]);
      }
    }
    InterleavesLength(Names(b), Passed(b), Failed(b));
  }

  /** With distinct names, no student is both passed and failed. */
  lemma PassFailDisjoint(b: ScoreBoard)
    requires DistinctNames(b)
    ensures forall n :: n in Passed(b) ==> n !in Failed(b)
  {
  }
}
