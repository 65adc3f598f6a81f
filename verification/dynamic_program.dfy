/** bestSegmentationOf of DPSeg: the dynamic program over (number of
    segments, end sentence) that cuts sentences [0, T) into K contiguous
    segments with the highest total segment score. */
module DynamicProgram {
  import opened Failures
  import opened Segments
  import opened SegmentationValue

  /** A table cell: -Double.MAX_VALUE (no segmentation reaches the cell) or a
      finite score. */
  datatype Score = NegInf | Fin(value: real)

  /** bestScores[i-1][start] + segLLs[start][length]: a finite segment score
      added to -Double.MAX_VALUE leaves it there. */
  function Extend(s: Score, ll: real): Score {
    if s.NegInf? then NegInf else Fin(s.value + ll)
  }

  /** The comparison `score > bestScore` of the scan. */
  predicate Beats(a: Score, b: Score) {
    a.Fin? && (b.NegInf? || a.value > b.value)
  }

  /** segLLs[start][length]: the score of the segment (start, length). */
  type ScoreFn = (nat, nat) -> real

  /** bestScores[i][end]: the best score of i segments covering [0, end). */
  function Best(score: ScoreFn, i: nat, end: nat): Score
    decreases i, 1, 0
  {
    if i == 0 then (if end == 0 then Fin(0.0) else NegInf)
    else if end < i then NegInf
    else Scan(score, i, end, end).0
  }

  /** The inner loop over start after examining starts [0, n): the pair
      (bestScore, bestStart), updated only on a strict improvement. */
  function Scan(score: ScoreFn, i: nat, end: nat, n: nat): (Score, int)
    requires 1 <= i && n <= end
    decreases i, 0, n
  {
    if n == 0 then (NegInf, -1)
    else
      var prev := Scan(score, i, end, n - 1);
      var c := Candidate(score, i, end, n - 1);
      if Beats(c, prev.0) then (c, n - 1) else prev
  }

  /** The score of ending i segments at end with a last segment [start, end). */
  function Candidate(score: ScoreFn, i: nat, end: nat, start: nat): Score
    requires 1 <= i && start < end
    decreases i, 0, start
  {
    Extend(Best(score, i - 1, start), score(start, end - start))
  }

  /** (b, s) is the first maximum of the candidates with starts [0, n): no
      candidate beats b, every earlier candidate is beaten by it, and s = -1
      exactly when no candidate is finite. */
  predicate IsFirstMaximum(score: ScoreFn, i: nat, end: nat, n: nat, b: Score, s: int)
    requires 1 <= i && n <= end
  {
    && (b.NegInf? <==> s == -1)
    && (b.Fin? ==> 0 <= s < n && b == Candidate(score, i, end, s))
    && (forall t :: 0 <= t < n ==> !Beats(Candidate(score, i, end, t), b))
    && (b.Fin? ==> forall t :: 0 <= t < s ==> Beats(b, Candidate(score, i, end, t)))
  }

  /** The scan computes the first maximum. */
  lemma {:induction false} ScanFacts(score: ScoreFn, i: nat, end: nat, n: nat)
    requires 1 <= i && n <= end
    ensures IsFirstMaximum(score, i, end, n, Scan(score, i, end, n).0, Scan(score, i, end, n).1)
  {
    if n > 0 {
      ScanFacts(score, i, end, n - 1);
      var prev := Scan(score, i, end, n - 1);
      var c := Candidate(score, i, end, n - 1);
      if Beats(c, prev.0) {
        forall t | 0 <= t < n - 1
          ensures !Beats(Candidate(score, i, end, t), c)
          ensures Beats(c, Candidate(score, i, end, t))
        {
          assert !Beats(Candidate(score, i, end, t), prev.0);
        }
      }
    }
  }

  /** A cell is reachable exactly when 0 segments cover nothing or the number
      of segments is between 1 and the number of sentences. */
  lemma {:induction false} FeasibleIff(score: ScoreFn, i: nat, end: nat)
    ensures Best(score, i, end).Fin? <==> (i == 0 && end == 0) || 1 <= i <= end
    decreases i
  {
    if 1 <= i <= end {
      FeasibleIff(score, i - 1, i - 1);
      ScanFacts(score, i, end, end);
      assert Candidate(score, i, end, i - 1).Fin?;
    }
  }

  /** bestSegments[i][end]: the last segment of the best segmentation, chosen
      by the scan; the cell score is the best of i - 1 segments up to its start
      plus its own score. */
  function LastSegment(score: ScoreFn, i: nat, end: nat): (s: Segment)
    requires 1 <= i <= end
    ensures End(s) == end
    ensures Best(score, i - 1, s.start).Fin?
    ensures Best(score, i, end) == Extend(Best(score, i - 1, s.start), score(s.start, s.length))
  {
    FeasibleIff(score, i, end);
    ScanFacts(score, i, end, end);
    var a := Scan(score, i, end, end).1;
    Span(a, end - a)
  }

  /** The segmentation read back from bestSegments: the last segment of the
      best cell, preceded by the best segmentation up to its start. */
  function Optimal(score: ScoreFn, i: nat, end: nat): seq<Segment>
    requires (i == 0 && end == 0) || 1 <= i <= end
    decreases i
  {
    if i == 0 then []
    else
      var s := LastSegment(score, i, end);
      FeasibleIff(score, i - 1, s.start);
      Optimal(score, i - 1, s.start) + [s]
  }

  /** The total score of a segmentation, segment by segment. */
  function Total(score: ScoreFn, p: seq<Segment>): real {
    if |p| == 0 then 0.0
    else Total(score, p[..|p| - 1]) + score(p[|p| - 1].start, p[|p| - 1].length)
  }

  /** The reconstructed segmentation has i segments, tiles [0, end), and
      achieves the cell's score. */
  lemma {:induction false} OptimalAchievesBest(score: ScoreFn, i: nat, end: nat)
    requires (i == 0 && end == 0) || 1 <= i <= end
    ensures |Optimal(score, i, end)| == i
    ensures Partitions(Optimal(score, i, end), end)
    ensures Best(score, i, end) == Fin(Total(score, Optimal(score, i, end)))
    decreases i
  {
    if i > 0 {
      var s := LastSegment(score, i, end);
      FeasibleIff(score, i - 1, s.start);
      OptimalAchievesBest(score, i - 1, s.start);
      var p := Optimal(score, i - 1, s.start);
      PartitionsSnoc(p, s, end);
      assert Optimal(score, i, end) == p + [s];
      assert (p + [s])[..|p|] == p;
    }
  }

  /** No tiling of [0, end) into |p| segments scores more than the cell. */
  lemma {:induction false} NoPartitionBeatsBest(score: ScoreFn, p: seq<Segment>, end: nat)
    requires Partitions(p, end)
    ensures Best(score, |p|, end).Fin?
    ensures Total(score, p) <= Best(score, |p|, end).value
    decreases |p|
  {
    if |p| > 0 {
      var q := p[..|p| - 1];
      var x := p[|p| - 1];
      assert p == q + [x];
      PartitionsSnoc(q, x, end);
      NoPartitionBeatsBest(score, q, x.start);
      FeasibleIff(score, |q|, x.start);
      FeasibleIff(score, |p|, end);
      ScanFacts(score, |p|, end, end);
      assert !Beats(Candidate(score, |p|, end, x.start), Best(score, |p|, end));
    }
  }

  /** Among optimal tilings, the reconstructed one has the earliest-starting
      last segment: a later candidate start only wins by scoring strictly more. */
  lemma OptimalLastStartsEarliest(score: ScoreFn, p: seq<Segment>, end: nat)
    requires |p| >= 1 && Partitions(p, end)
    requires Best(score, |p|, end) == Fin(Total(score, p))
    ensures |p| <= end && LastSegment(score, |p|, end).start <= p[|p| - 1].start
  {
    var q := p[..|p| - 1];
    var x := p[|p| - 1];
    assert p == q + [x];
    PartitionsSnoc(q, x, end);
    NoPartitionBeatsBest(score, q, x.start);
    FeasibleIff(score, |p|, end);
    ScanFacts(score, |p|, end, end);
    var c := Candidate(score, |p|, end, x.start);
    assert c.Fin? && c.value >= Total(score, p);
    assert !Beats(Best(score, |p|, end), c);
  }

  /** A cell of bestSegments: set only for 1 <= i <= end, null elsewhere. */
  function Cell(score: ScoreFn, i: nat, end: nat): Option<Segment> {
    if 1 <= i <= end then Some(LastSegment(score, i, end)) else None
  }

  /** What bestSegmentationOf yields for T sentences and K segments,
      including the exceptions out-of-range K runs into. */
  function Outcome(score: ScoreFn, T: nat, K: int): Result<seq<Segment>> {
    if K < -1 then Err(NegativeArraySize)           // new double[K + 1][...]
    else if K == -1 && T == 0 then Err(IllegalArgument)  // no loop runs; new ArrayList<>(-1)
    else if K == -1 then Err(IndexOutOfBounds)      // bestScores[0][1] of an empty bestScores
    else if K == 0 then Err(NullPointer)            // ImmutableList.copyOf of a null segment
    else if K >= T + 2 then Err(IndexOutOfBounds)   // bestScores[i][end] with end = T + 1
    else if K == T + 1 then Err(NullPointer)        // bestSegments[K][T] was never set
    else Ok(Optimal(score, K, T))
  }

  /** t is the segLLs table: entry [start][length] holds the score of every
      segment inside [0, T). */
  predicate IsSegmentScoreTable(score: ScoreFn, T: nat, t: seq<seq<real>>) {
    && |t| == T + 1
    && (forall s :: 0 <= s <= T ==> |t[s]| == T + 1)
    && (forall s, l :: 0 <= s < T && 1 <= l <= T - s ==> t[s][l] == score(s, l))
  }

  /** Row i of bestScores and bestSegments as the loops leave it. */
  predicate IsRow(score: ScoreFn, T: nat, i: nat, scores: seq<Score>, segments: seq<Option<Segment>>) {
    && |scores| == T + 1 && |segments| == T + 1
    && (forall e :: 0 <= e <= T ==> scores[e] == Best(score, i, e) && segments[e] == Cell(score, i, e))
  }

  /** Fills the segLLs table; entries outside [0, T) keep the default 0.0. */
  method SegmentScores(T: nat, score: ScoreFn) returns (t: seq<seq<real>>)
    ensures IsSegmentScoreTable(score, T, t)
  {
    t := [];
    var start := 0;
    while start <= T
      invariant 0 <= start <= T + 1 && |t| == start
      invariant forall s :: 0 <= s < start ==> |t[s]| == T + 1
      invariant forall s, l :: 0 <= s < start && s < T && 1 <= l <= T - s ==> t[s][l] == score(s, l)
    {
      var row: seq<real> := [0.0];
      var length := 1;
      while length <= T
        invariant 1 <= length <= T + 1 && |row| == length
        invariant forall l :: 1 <= l < length && start + l <= T ==> row[l] == score(start, l)
      {
        row := row + [if start + length <= T then score(start, length) else 0.0];
        length := length + 1;
      }
      t := t + [row];
      start := start + 1;
    }
  }

  /** The innermost loop: scans every start before end, keeping the first
      strictly best candidate. */
  method ScanStarts(score: ScoreFn, T: nat, i: nat, end: nat, previous: seq<Score>, segLLs: seq<seq<real>>)
    returns (bestScore: Score, bestStart: int)
    requires 1 <= i <= end <= T
    requires IsSegmentScoreTable(score, T, segLLs)
    requires |previous| == T + 1 && forall e :: 0 <= e <= T ==> previous[e] == Best(score, i - 1, e)
    ensures IsFirstMaximum(score, i, end, end, bestScore, bestStart)
    ensures bestScore == Best(score, i, end)
    ensures bestStart >= 0 && Span(bestStart, end - bestStart) == LastSegment(score, i, end)
  {
    bestScore := NegInf;
    bestStart := -1;
    var start := 0;
    while start < end
      invariant 0 <= start <= end
      invariant (bestScore, bestStart) == Scan(score, i, end, start)
    {
      var candidate := Extend(previous[start], segLLs[start][end - start]);
      if Beats(candidate, bestScore) {
        bestScore := candidate;
        bestStart := start;
      }
      start := start + 1;
    }
    FeasibleIff(score, i, end);
    ScanFacts(score, i, end, end);
  }

  /** One pass of the loop over i: cells before i are unreachable, the rest
      come from the scan. Fails when i exceeds T + 1, where the first inner
      loop writes past the end of the row. */
  method FillRow(score: ScoreFn, T: nat, i: nat, previous: seq<Score>, segLLs: seq<seq<real>>)
    returns (r: Result<(seq<Score>, seq<Option<Segment>>)>)
    requires 1 <= i
    requires IsSegmentScoreTable(score, T, segLLs)
    requires |previous| == T + 1 && forall e :: 0 <= e <= T ==> previous[e] == Best(score, i - 1, e)
    ensures r.Err? <==> i > T + 1
    ensures r.Err? ==> r.error == IndexOutOfBounds
    ensures r.Ok? ==> IsRow(score, T, i, r.value.0, r.value.1)
  {
    var scores: seq<Score> := [];
    var segments: seq<Option<Segment>> := [];
    var end := 0;
    while end < i
      invariant 0 <= end <= i && end <= T + 1
      invariant |scores| == end && |segments| == end
      invariant forall e :: 0 <= e < end ==> scores[e] == Best(score, i, e) && segments[e] == Cell(score, i, e)
    {
      if end > T {
        return Err(IndexOutOfBounds);
      }
      scores := scores + [NegInf];
      segments := segments + [None];
      end := end + 1;
    }
    while end <= T
      invariant i <= end <= T + 1
      invariant |scores| == end && |segments| == end
      invariant forall e :: 0 <= e < end ==> scores[e] == Best(score, i, e) && segments[e] == Cell(score, i, e)
    {
      var bestScore, bestStart := ScanStarts(score, T, i, end, previous, segLLs);
      scores := scores + [bestScore];
      segments := segments + [Some(Span(bestStart, end - bestStart))];
      end := end + 1;
    }
    return Ok((scores, segments));
  }

  /** Part way through the read-back: segs are the last K - k segments of
      the optimal segmentation, which cover the sentences from segs[0].start. */
  predicate ReadBack(score: ScoreFn, T: nat, K: nat, k: nat, segs: seq<Segment>) {
    && 1 <= K <= T && k < K && |segs| == K - k
    && ((k == 0 && segs[0].start == 0) || 1 <= k <= segs[0].start)
    && segs[0].start <= T && SumLengths(segs) == T - segs[0].start
    && Optimal(score, k, segs[0].start) + segs == Optimal(score, K, T)
  }

  /** The read-back starts from the best cell of row K and column T. */
  lemma ReadBackStart(score: ScoreFn, T: nat, K: nat)
    requires 1 <= K <= T
    ensures ReadBack(score, T, K, K - 1, [LastSegment(score, K, T)])
  {
    var last := LastSegment(score, K, T);
    FeasibleIff(score, K - 1, last.start);
    assert Optimal(score, K - 1, last.start) + [last] == Optimal(score, K, T);
  }

  /** One step of the read-back prepends the best cell for the sentences not
      yet covered. */
  lemma ReadBackStep(score: ScoreFn, T: nat, K: nat, k: nat, segs: seq<Segment>)
    requires ReadBack(score, T, K, k, segs) && k > 0
    ensures T - SumLengths(segs) == segs[0].start
    ensures ReadBack(score, T, K, k - 1, [LastSegment(score, k, T - SumLengths(segs))] + segs)
  {
    var end := segs[0].start;
    var s := LastSegment(score, k, end);
    FeasibleIff(score, k - 1, s.start);
    var segs' := [s] + segs;
    assert segs'[1..] == segs;
    assert Optimal(score, k - 1, s.start) + segs' == Optimal(score, k, end) + segs;
  }

  /** Working backward from bestSegments[K][T]: each step prepends the cell
      indexed by the sentences not yet covered. */
  method Reconstruct(score: ScoreFn, T: nat, K: nat, bestSegments: seq<seq<Option<Segment>>>)
    returns (segs: seq<Segment>)
    requires 1 <= K <= T
    requires |bestSegments| == K + 1
    requires forall row :: 0 <= row <= K ==> |bestSegments[row]| == T + 1
    requires forall row, e :: 0 <= row <= K && 0 <= e <= T ==> bestSegments[row][e] == Cell(score, row, e)
    ensures segs == Optimal(score, K, T)
  {
    segs := [bestSegments[K][T].value];
    ReadBackStart(score, T, K);
    var k := K - 1;
    while k > 0
      invariant ReadBack(score, T, K, k, segs)
    {
      var remaining := T - SumLengths(segs);
      ReadBackStep(score, T, K, k, segs);
      segs := [bestSegments[k][remaining].value] + segs;
      k := k - 1;
    }
    assert Optimal(score, 0, segs[0].start) + segs == segs;
  }

  /** The first n rows of bestScores and bestSegments are filled in. */
  predicate IsTable(score: ScoreFn, T: nat, n: nat, bestScores: seq<seq<Score>>, bestSegments: seq<seq<Option<Segment>>>) {
    && |bestScores| == n && |bestSegments| == n
    && (forall row :: 0 <= row < n ==> |bestScores[row]| == T + 1 && |bestSegments[row]| == T + 1)
    && (forall row, e :: 0 <= row < n && 0 <= e <= T ==> bestScores[row][e] == Best(score, row, e))
    && (forall row, e :: 0 <= row < n && 0 <= e <= T ==> bestSegments[row][e] == Cell(score, row, e))
  }

  /** Row 0: only the empty prefix can be split into no segments. */
  lemma TableStart(score: ScoreFn, T: nat)
    ensures IsTable(score, T, 1,
      [seq(T + 1, e requires 0 <= e <= T => if e == 0 then Fin(0.0) else NegInf)],
      [seq(T + 1, _ => None)])
  {
    forall e | 0 <= e <= T
      ensures Best(score, 0, e) == if e == 0 then Fin(0.0) else NegInf
    {
      FeasibleIff(score, 0, e);
    }
  }

  lemma TableGrows(score: ScoreFn, T: nat, n: nat, bestScores: seq<seq<Score>>, bestSegments: seq<seq<Option<Segment>>>,
                   scores: seq<Score>, segments: seq<Option<Segment>>)
    requires IsTable(score, T, n, bestScores, bestSegments) && IsRow(score, T, n, scores, segments)
    ensures IsTable(score, T, n + 1, bestScores + [scores], bestSegments + [segments])
  {
    var S := bestScores + [scores];
    var G := bestSegments + [segments];
    forall row | 0 <= row <= n
      ensures |S[row]| == T + 1 && |G[row]| == T + 1
    {
      if row < n {
        assert S[row] == bestScores[row] && G[row] == bestSegments[row];
      }
    }
    forall row, e | 0 <= row <= n && 0 <= e <= T
      ensures S[row][e] == Best(score, row, e)
    {
      if row < n {
        assert S[row] == bestScores[row];
      } else {
        assert S[row] == scores;
      }
    }
    forall row, e | 0 <= row <= n && 0 <= e <= T
      ensures G[row][e] == Cell(score, row, e)
    {
      if row < n {
        assert G[row] == bestSegments[row];
      } else {
        assert G[row] == segments;
      }
    }
  }

  /** bestSegmentationOf: fills bestScores and bestSegments row by row, then
      reads the segmentation back from bestSegments[K][T]. */
  method BestSegmentationOf(T: nat, K: int, score: ScoreFn) returns (r: Result<seq<Segment>>)
    ensures r == Outcome(score, T, K)
    ensures r.Ok? <==> 1 <= K <= T
    ensures r.Err? ==> (r.error == IllegalArgument <==> K == -1 && T == 0)
    ensures r.Ok? ==> |r.value| == K && Partitions(r.value, T)
    ensures r.Ok? ==> forall p :: |p| == K && Partitions(p, T) ==> Total(score, p) <= Total(score, r.value)
  {
    if K + 1 < 0 {
      return Err(NegativeArraySize);
    }
    var segLLs := SegmentScores(T, score);
    if K == -1 && T == 0 {
      return Err(IllegalArgument);
    }
    if K == -1 {
      return Err(IndexOutOfBounds);
    }
    var bestScores: seq<seq<Score>> := [seq(T + 1, e requires 0 <= e <= T => if e == 0 then Fin(0.0) else NegInf)];
    var bestSegments: seq<seq<Option<Segment>>> := [seq(T + 1, _ => None)];
    TableStart(score, T);
    var i := 1;
    while i <= K
      invariant 1 <= i <= K + 1 && i <= T + 2
      invariant IsTable(score, T, i, bestScores, bestSegments)
    {
      var filled := FillRow(score, T, i, bestScores[i - 1], segLLs);
      if filled.Err? {
        return Err(filled.error);
      }
      TableGrows(score, T, i, bestScores, bestSegments, filled.value.0, filled.value.1);
      bestScores := bestScores + [filled.value.0];
      bestSegments := bestSegments + [filled.value.1];
      i := i + 1;
    }
    if bestSegments[K][T].None? {
      return Err(NullPointer);
    }
    var segs := Reconstruct(score, T, K, bestSegments);
    OptimalAchievesBest(score, K, T);
    forall p | |p| == K && Partitions(p, T)
      ensures Total(score, p) <= Total(score, segs)
    {
      NoPartitionBeatsBest(score, p, T);
    }
    return Ok(segs);
  }
}
