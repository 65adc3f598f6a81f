/** An ordered list of segments, the value class of both Segmentation copies
    of the repository: built from a segment list or from a lengths array,
    and read back as lengths (int[], List<Integer>, or a string). */
module SegmentationValue {
  import opened Failures
  import opened Segments
  import Decimal

  datatype Segmentation = Segmentation(segments: seq<Segment>)

  /** A java.util.List as produced by Collectors.toList: a linked list. */
  datatype JList<T> = Nil | Cons(head: T, tail: JList<T>)

  function ListToSeq<T>(l: JList<T>): seq<T> {
    match l
    case Nil => []
    case Cons(h, t) => [h] + ListToSeq(t)
  }

  /** Sum of a sequence of ints (IntStream.sum, without overflow). */
  function Sum(xs: seq<int>): int {
    if |xs| == 0 then 0 else Sum(xs[..|xs| - 1]) + xs[|xs| - 1]
  }

  /** Sum of the lengths of a segment list. */
  function SumLengths(p: seq<Segment>): int {
    if |p| == 0 then 0 else p[0].length + SumLengths(p[1..])
  }

  /** The segments tile [0, n): the first starts at 0, each starts where the
      previous one ends, and the last ends at n. Every length is positive
      because every element is a Segment. */
  predicate Partitions(p: seq<Segment>, n: int) {
    if |p| == 0 then n == 0
    else
      && p[0].start == 0
      && End(p[|p| - 1]) == n
      && forall j :: 0 <= j < |p| - 1 ==> p[j + 1].start == End(p[j])
  }

  /** Extending a tiling of [0, x.start) by x gives a tiling of [0, End(x)), and
      every non-empty tiling arises so. */
  lemma PartitionsSnoc(p: seq<Segment>, x: Segment, n: int)
    ensures Partitions(p + [x], n) <==> Partitions(p, x.start) && End(x) == n
  {
    var q := p + [x];
    if |p| > 0 {
      assert q[0] == p[0];
      assert q[|q| - 2] == p[|p| - 1];
      if Partitions(p, x.start) && End(x) == n {
        forall j | 0 <= j < |q| - 1
          ensures q[j + 1].start == End(q[j])
        {
          if j < |p| - 1 {
            assert q[j] == p[j] && q[j + 1] == p[j + 1];
          }
        }
      }
      if Partitions(q, n) {
        forall j | 0 <= j < |p| - 1
          ensures p[j + 1].start == End(p[j])
        {
          assert q[j] == p[j] && q[j + 1] == p[j + 1];
        }
      }
    }
  }

  /** The lengths of a tiling of [0, n) add up to n. */
  lemma {:induction false} PartitionsSumToEnd(p: seq<Segment>, n: int)
    requires Partitions(p, n)
    ensures SumLengths(p) == n
  {
    if |p| > 0 {
      SumLengthsSnoc(p[..|p| - 1], p[|p| - 1]);
      assert p == p[..|p| - 1] + [p[|p| - 1]];
      PartitionsSnoc(p[..|p| - 1], p[|p| - 1], n);
      PartitionsSumToEnd(p[..|p| - 1], p[|p| - 1].start);
    }
  }

  lemma {:induction false} SumLengthsSnoc(p: seq<Segment>, x: Segment)
    ensures SumLengths(p + [x]) == SumLengths(p) + x.length
  {
    if |p| > 0 {
      assert (p + [x])[1..] == p[1..] + [x];
      SumLengthsSnoc(p[1..], x);
    }
  }

  /** Segmentation.toArray: the segment lengths in list order. */
  function ToArray(g: Segmentation): (r: seq<int>)
    ensures |r| == |g.segments|
    ensures forall i :: 0 <= i < |r| ==> r[i] == g.segments[i].length
  {
    seq(|g.segments|, i requires 0 <= i < |g.segments| => g.segments[i].length)
  }

  function LengthList(p: seq<Segment>): JList<int> {
    if |p| == 0 then Nil else Cons(p[0].length, LengthList(p[1..]))
  }

  /** Segmentation.toList: a boxed list holding the same lengths in the same
      order as toArray. */
  function ToList(g: Segmentation): (r: JList<int>)
    ensures ListToSeq(r) == ToArray(g)
  {
    LengthListMatches(g.segments);
    LengthList(g.segments)
  }

  lemma {:induction false} LengthListMatches(p: seq<Segment>)
    ensures ListToSeq(LengthList(p)) == ToArray(Segmentation(p))
  {
    if |p| > 0 {
      LengthListMatches(p[1..]);
    }
  }

  /** Segmentation.size: the number of segments, one per toArray entry. */
  function Size(g: Segmentation): (r: nat)
    ensures r == |ToArray(g)| && r == |g.segments|
  {
    |g.segments|
  }

  /** The lengths rendered one by one and joined with ", ". */
  function Join(xs: seq<int>): string
    requires forall i :: 0 <= i < |xs| ==> xs[i] >= 0
  {
    if |xs| == 0 then ""
    else if |xs| == 1 then Decimal.NatToString(xs[0])
    else Decimal.NatToString(xs[0]) + ", " + Join(xs[1..])
  }

  /** Segmentation.toString: "[" + lengths joined by ", " + "]". */
  function ToString(g: Segmentation): string {
    "[" + Join(ToArray(g)) + "]"
  }

  /** Reads a non-empty ", "-separated list of numerals. */
  function ParseJoined(s: string): Option<seq<nat>>
    decreases |s|
  {
    var k := Decimal.DigitRun(s);
    if k == 0 then None
    else if k == |s| then Some([Decimal.ParseNat(s)])
    else if k + 2 <= |s| && s[k] == ',' && s[k + 1] == ' ' then
      match ParseJoined(s[k + 2..])
      case None => None
      case Some(rest) => Some([Decimal.ParseNat(s[..k])] + rest)
    else None
  }

  /** Reads back a string of the form "[n, n, ...]". */
  function ParseLengths(s: string): Option<seq<nat>> {
    if |s| < 2 || s[0] != '[' || s[|s| - 1] != ']' then None
    else if |s| == 2 then Some([])
    else ParseJoined(s[1..|s| - 1])
  }

  lemma {:induction false} ParseJoinedRoundTrip(xs: seq<int>)
    requires |xs| >= 1
    requires forall i :: 0 <= i < |xs| ==> xs[i] >= 0
    ensures ParseJoined(Join(xs)) == Some(xs)
  {
    var d := Decimal.NatToString(xs[0]);
    Decimal.ParseNatToString(xs[0]);
    if |xs| == 1 {
      Decimal.DigitRunOfDigits(d, "");
      assert d + "" == d;
      assert xs == [xs[0]];
    } else {
      var tail := Join(xs[1..]);
      var s := d + ", " + tail;
      assert s == d + (", " + tail);
      Decimal.DigitRunOfDigits(d, ", " + tail);
      assert s[..|d|] == d;
      assert s[|d| + 2..] == tail;
      ParseJoinedRoundTrip(xs[1..]);
      assert [xs[0]] + xs[1..] == xs;
    }
  }

  /** toString loses nothing: the lengths can be read back from it. */
  lemma ToStringRoundTrip(g: Segmentation)
    ensures ParseLengths(ToString(g)) == Some(ToArray(g))
  {
    var xs := ToArray(g);
    var s := ToString(g);
    assert s[1..|s| - 1] == Join(xs);
    if |xs| > 0 {
      ParseJoinedRoundTrip(xs);
    }
  }

  /** The lengths-array constructor: each segment starts where the lengths
      before it end (offset + their sum); the first length <= 0 makes the
      Segment constructor throw. */
  function Layout(ls: seq<int>, offset: nat): (r: Result<seq<Segment>>)
    ensures r.Ok? <==> forall i :: 0 <= i < |ls| ==> ls[i] > 0
    ensures r.Err? ==> r.error == IllegalArgument
    ensures r.Ok? ==> |r.value| == |ls|
    ensures r.Ok? ==> forall i :: 0 <= i < |ls| ==>
                        r.value[i] == Span(offset + Sum(ls[..i]), ls[i])
  {
    if |ls| == 0 then Ok([])
    else match NewSegment(offset, ls[0])
      case Err(e) => Err(e)
      case Ok(s) =>
        match Layout(ls[1..], offset + ls[0])
        case Err(e) => Err(e)
        case Ok(rest) =>
          LayoutShift(ls);
          Ok([s] + rest)
  }

  /** The prefix sums of ls[1..] are those of ls shifted by ls[0]. */
  lemma LayoutShift(ls: seq<int>)
    requires |ls| > 0
    ensures forall i :: 1 <= i <= |ls| ==> Sum(ls[..i]) == ls[0] + Sum(ls[1..][..i - 1])
  {
    forall i | 1 <= i <= |ls|
      ensures Sum(ls[..i]) == ls[0] + Sum(ls[1..][..i - 1])
    {
      SumCons(ls[..i]);
      assert ls[..i][1..] == ls[1..][..i - 1];
    }
  }

  lemma {:induction false} SumCons(xs: seq<int>)
    requires |xs| > 0
    ensures Sum(xs) == xs[0] + Sum(xs[1..])
  {
    if |xs| > 1 {
      SumCons(xs[..|xs| - 1]);
      assert xs[..|xs| - 1][1..] == xs[1..][..|xs| - 2];
    }
  }

  /** new Segmentation(int[] segmentLengths). */
  function FromLengths(ls: seq<int>): (r: Result<Segmentation>)
    ensures r.Ok? <==> forall i :: 0 <= i < |ls| ==> ls[i] > 0
    ensures r.Err? ==> r.error == IllegalArgument
    ensures r.Ok? ==> Size(r.value) == |ls|
    ensures r.Ok? ==> forall i :: 0 <= i < |ls| ==>
                        r.value.segments[i].start == Sum(ls[..i])
  {
    match Layout(ls, 0)
    case Err(e) => Err(e)
    case Ok(p) => Ok(Segmentation(p))
  }

  /** Round trip: the lengths array survives construction and toArray. */
  lemma FromLengthsToArray(ls: seq<int>)
    requires forall i :: 0 <= i < |ls| ==> ls[i] > 0
    ensures FromLengths(ls).Ok? && ToArray(FromLengths(ls).value) == ls
  {
  }

  /** A segmentation built from lengths tiles [0, sum of the lengths). */
  lemma FromLengthsPartitions(ls: seq<int>)
    requires FromLengths(ls).Ok?
    ensures Partitions(FromLengths(ls).value.segments, Sum(ls))
  {
    var p := Layout(ls, 0).value;
    assert FromLengths(ls).value.segments == p;
    assert |p| == |ls|;
    if |ls| > 0 {
      forall j | 0 <= j < |p| - 1
        ensures p[j + 1].start == End(p[j])
      {
        LayoutContiguous(ls, j);
      }
      LayoutEnds(ls);
      assert p[0].start == 0 by {
        assert p[0] == Span(Sum(ls[..0]), ls[0]);
        assert ls[..0] == [];
      }
    } else {
      assert Sum(ls) == 0;
    }
  }

  lemma LayoutContiguous(ls: seq<int>, j: nat)
    requires Layout(ls, 0).Ok?
    requires j < |ls| - 1
    ensures Layout(ls, 0).value[j + 1].start == End(Layout(ls, 0).value[j])
  {
    var p := Layout(ls, 0).value;
    assert p[j] == Span(Sum(ls[..j]), ls[j]);
    assert p[j + 1] == Span(Sum(ls[..j + 1]), ls[j + 1]);
    PrefixSumStep(ls, j);
  }

  lemma LayoutEnds(ls: seq<int>)
    requires Layout(ls, 0).Ok?
    requires |ls| > 0
    ensures End(Layout(ls, 0).value[|ls| - 1]) == Sum(ls)
  {
    var p := Layout(ls, 0).value;
    var last := |ls| - 1;
    assert p[last] == Span(Sum(ls[..last]), ls[last]);
    PrefixSumStep(ls, last);
    assert ls[..last + 1] == ls;
  }

  lemma PrefixSumStep(ls: seq<int>, j: nat)
    requires j < |ls|
    ensures Sum(ls[..j + 1]) == Sum(ls[..j]) + ls[j]
  {
    assert ls[..j + 1][..j] == ls[..j];
  }

  /** Conversely, a tiling is determined by its lengths: rebuilding from
      toArray gives back the same segments. */
  lemma {:induction false} PartitionRebuiltFromLengths(p: seq<Segment>, n: int)
    requires Partitions(p, n)
    ensures FromLengths(ToArray(Segmentation(p))) == Ok(Segmentation(p))
  {
    var ls := ToArray(Segmentation(p));
    var q := FromLengths(ls).value.segments;
    forall i | 0 <= i < |p|
      ensures q[i] == p[i]
    {
      StartIsPrefixSum(p, n, i);
    }
    assert q == p;
  }

  lemma {:induction false} StartIsPrefixSum(p: seq<Segment>, n: int, i: nat)
    requires Partitions(p, n)
    requires i < |p|
    ensures p[i].start == Sum(ToArray(Segmentation(p))[..i])
  {
    var ls := ToArray(Segmentation(p));
    if i > 0 {
      StartIsPrefixSum(p, n, i - 1);
      assert ls[..i] == ls[..i - 1] + [ls[i - 1]];
      assert ls[..i][..i - 1] == ls[..i - 1];
    }
  }
}
