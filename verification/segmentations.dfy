/** Segmentations: the reference segmentations of a dataset, as read from
    JSON — for each item, each coder's array of segment lengths — and the
    segment counts derived from them. Both copies (in.aesh.segment and
    segmentation) are modelled here; only the in.aesh copy has the mean. */
module ReferenceSegmentations {
  import opened Failures
  import opened SegmentationValue

  /** The GSON-populated fields; getId and getSegmentationType return the
      first two unchanged. */
  datatype Segmentations = Segmentations(
    id: string,
    segmentationType: string,
    items: map<string, map<string, seq<int>>>)

  /** Every coder's lengths array is accepted by the lengths constructor. */
  predicate AllLengthsPositive(s: Segmentations) {
    forall item, coder :: item in s.items && coder in s.items[item] ==>
      forall i :: 0 <= i < |s.items[item][coder]| ==> s.items[item][coder][i] > 0
  }

  function Codings(codings: map<string, seq<int>>): map<string, Segmentation>
    requires forall coder :: coder in codings ==> FromLengths(codings[coder]).Ok?
  {
    map coder | coder in codings :: FromLengths(codings[coder]).value
  }

  /** getItems: every lengths array becomes a Segmentation. The first array
      holding a non-positive length makes the Segment constructor throw. */
  function GetItems(s: Segmentations): (r: Result<map<string, map<string, Segmentation>>>)
    ensures r.Ok? <==> AllLengthsPositive(s)
    ensures r.Err? ==> r.error == IllegalArgument
    ensures r.Ok? ==> r.value.Keys == s.items.Keys
    ensures r.Ok? ==> forall item :: item in s.items ==> r.value[item].Keys == s.items[item].Keys
    ensures r.Ok? ==> forall item, coder :: item in s.items && coder in s.items[item] ==>
                        Size(r.value[item][coder]) == |s.items[item][coder]|
  {
    if forall item, coder :: item in s.items && coder in s.items[item] ==> FromLengths(s.items[item][coder]).Ok?
    then Ok(map item | item in s.items :: Codings(s.items[item]))
    else Err(IllegalArgument)
  }

  /** getItems loses nothing: each Segmentation's toArray gives back the
      coder's lengths. */
  lemma GetItemsRoundTrip(s: Segmentations, item: string, coder: string)
    requires AllLengthsPositive(s) && item in s.items && coder in s.items[item]
    ensures GetItems(s).Ok? && ToArray(GetItems(s).value[item][coder]) == s.items[item][coder]
  {
    FromLengthsToArray(s.items[item][coder]);
  }

  /** getSegmentCounts(coder): the number of segments coder gave each item;
      an item the coder did not annotate yields a null array, whose length
      throws. */
  function GetSegmentCounts(s: Segmentations, coder: string): (r: Result<map<string, int>>)
    ensures r.Ok? <==> forall item :: item in s.items ==> coder in s.items[item]
    ensures r.Err? ==> r.error == NullPointer
    ensures r.Ok? ==> r.value.Keys == s.items.Keys
    ensures r.Ok? ==> forall item :: item in s.items ==> r.value[item] == |s.items[item][coder]|
  {
    if forall item :: item in s.items ==> coder in s.items[item]
    then Ok(map item | item in s.items :: |s.items[item][coder]|)
    else Err(NullPointer)
  }

  /** The count of an item is the size of the coder's Segmentation of it. */
  lemma SegmentCountsAreSizes(s: Segmentations, coder: string, item: string)
    requires AllLengthsPositive(s) && item in s.items
    requires forall other :: other in s.items ==> coder in s.items[other]
    ensures GetItems(s).Ok? && GetSegmentCounts(s, coder).Ok?
    ensures GetSegmentCounts(s, coder).value[item] == Size(GetItems(s).value[item][coder])
  {
  }

  /** The total number of segments over all of an item's coders. */
  ghost function TotalLength(codings: map<string, seq<int>>): (r: nat)
    decreases |codings|
  {
    if codings == map[] then 0
    else
      var coder :| coder in codings;
      assert |codings - {coder}| < |codings| by {
        assert codings.Keys - {coder} < codings.Keys;
      }
      |codings[coder]| + TotalLength(codings - {coder})
  }

  /** The coder TotalLength removes first, and what remains. */
  lemma TotalLengthStep(codings: map<string, seq<int>>) returns (coder: string, rest: map<string, seq<int>>)
    requires codings != map[]
    ensures coder in codings && rest == codings - {coder} && |rest| == |codings| - 1
    ensures TotalLength(codings) == |codings[coder]| + TotalLength(rest)
  {
    coder :| coder in codings && TotalLength(codings) == |codings[coder]| + TotalLength(codings - {coder});
    rest := codings - {coder};
    assert rest.Keys == codings.Keys - {coder};
  }

  lemma BoundsStep(lo: int, hi: int, m: nat, total: int, x: int)
    requires lo * m <= total <= hi * m && lo <= x <= hi
    ensures lo * (m + 1) <= total + x <= hi * (m + 1)
  {
    assert lo * (m + 1) == lo * m + lo;
    assert hi * (m + 1) == hi * m + hi;
  }

  /** Bounds on every coder's count bound the total. */
  lemma {:induction false} TotalLengthBounds(codings: map<string, seq<int>>, lo: int, hi: int)
    requires forall coder :: coder in codings ==> lo <= |codings[coder]| <= hi
    ensures lo * |codings| <= TotalLength(codings) <= hi * |codings|
    decreases |codings|
  {
    if codings != map[] {
      var coder, rest := TotalLengthStep(codings);
      TotalLengthBounds(rest, lo, hi);
      BoundsStep(lo, hi, |rest|, TotalLength(rest), |codings[coder]|);
    }
  }

  /** Math.round((float) mean) on the mean total/n: the nearest integer, a
      half rounded up. */
  function RoundedMean(total: int, n: int): (r: int)
    requires n > 0
    ensures 2 * n * r <= 2 * total + n < 2 * n * (r + 1)
  {
    var r := (2 * total + n) / (2 * n);
    assert 2 * total + n == 2 * n * r + (2 * total + n) % (2 * n);
    r
  }

  /** A rounded mean of values between lo and hi is between lo and hi. */
  lemma RoundedMeanBetween(total: int, n: int, lo: int, hi: int)
    requires n > 0 && lo * n <= total <= hi * n
    ensures lo <= RoundedMean(total, n) <= hi
  {
    var r := RoundedMean(total, n);
    assert 2 * n * lo < 2 * total + n < 2 * n * (r + 1);
    ScaledLess(2 * n, lo, r + 1);
    assert 2 * n * r <= 2 * total + n < 2 * n * (hi + 1);
    ScaledLess(2 * n, r, hi + 1);
  }

  /** Dividing both sides of a strict inequality by a positive factor. */
  lemma ScaledLess(c: int, a: int, b: int)
    requires c > 0 && c * a < c * b
    ensures a < b
  {
    var d := b - a;
    assert c * b == c * a + c * d;
    assert c * d > 0;
  }

  /** getMeanSegmentCounts: for each item, the rounded mean of its coders'
      segment counts; an item without coders has no average, and orElseThrow
      raises IllegalStateException. */
  ghost function GetMeanSegmentCounts(s: Segmentations): (r: Result<map<string, int>>)
    ensures r.Ok? <==> forall item :: item in s.items ==> |s.items[item]| > 0
    ensures r.Err? ==> r.error == IllegalState
    ensures r.Ok? ==> r.value.Keys == s.items.Keys
  {
    if forall item :: item in s.items ==> |s.items[item]| > 0
    then Ok(map item | item in s.items :: RoundedMean(TotalLength(s.items[item]), |s.items[item]|))
    else Err(IllegalState)
  }

  /** The mean count lies between the smallest and the largest coder count. */
  lemma MeanBetweenCoders(s: Segmentations, item: string, lo: int, hi: int)
    requires forall other :: other in s.items ==> |s.items[other]| > 0
    requires item in s.items
    requires forall coder :: coder in s.items[item] ==> lo <= |s.items[item][coder]| <= hi
    ensures GetMeanSegmentCounts(s).Ok? && lo <= GetMeanSegmentCounts(s).value[item] <= hi
  {
    TotalLengthBounds(s.items[item], lo, hi);
    RoundedMeanBetween(TotalLength(s.items[item]), |s.items[item]|, lo, hi);
  }

  /** When every coder agrees, the mean counts are any one coder's counts. */
  lemma MeanOfAgreeingCoders(s: Segmentations, coder: string)
    requires forall item :: item in s.items ==> coder in s.items[item]
    requires forall item, other :: item in s.items && other in s.items[item] ==>
               |s.items[item][other]| == |s.items[item][coder]|
    ensures GetMeanSegmentCounts(s) == GetSegmentCounts(s, coder)
  {
    forall item | item in s.items
      ensures |s.items[item]| > 0
    {
      assert coder in s.items[item];
    }
    var counts := GetSegmentCounts(s, coder).value;
    var mean := GetMeanSegmentCounts(s).value;
    forall item | item in s.items
      ensures mean[item] == counts[item]
    {
      MeanBetweenCoders(s, item, counts[item], counts[item]);
    }
    assert mean == counts;
  }
}
