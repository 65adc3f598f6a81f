/** DPDocument: per-sentence cumulative word counts, the vocabulary in
    first-occurrence order, and word counts over a sentence range obtained by
    subtracting two cumulative counts. */
module DocumentStats {
  import opened Failures
  import opened Segments
  import SegmentationValue

  /** A sentence is a list of already-normalised tokens. */
  type Sentence = seq<string>

  /** The fields of a constructed DPDocument. */
  datatype Document = Document(
    vocabulary: seq<string>,
    cumulative: seq<multiset<string>>,
    sentenceCount: nat)

  /** All tokens of the sentences, in order. */
  function Flatten(ss: seq<Sentence>): seq<string> {
    if |ss| == 0 then [] else ss[0] + Flatten(ss[1..])
  }

  lemma {:induction false} FlattenAppend(xs: seq<Sentence>, ys: seq<Sentence>)
    ensures Flatten(xs + ys) == Flatten(xs) + Flatten(ys)
  {
    if |xs| > 0 {
      assert (xs + ys)[0] == xs[0];
      assert (xs + ys)[1..] == xs[1..] + ys;
      FlattenAppend(xs[1..], ys);
    } else {
      assert xs + ys == ys;
    }
  }

  /** The brute-force reference: the multiset of every token of sentences [a, b). */
  function RangeBag(ss: seq<Sentence>, a: nat, b: nat): multiset<string>
    requires a <= b <= |ss|
  {
    multiset(Flatten(ss[a..b]))
  }

  /** Words of sentences [a, b) are those of [a, m) plus those of [m, b). */
  lemma RangeBagSplit(ss: seq<Sentence>, a: nat, m: nat, b: nat)
    requires a <= m <= b <= |ss|
    ensures RangeBag(ss, a, b) == RangeBag(ss, a, m) + RangeBag(ss, m, b)
  {
    assert ss[a..b] == ss[a..m] + ss[m..b];
    FlattenAppend(ss[a..m], ss[m..b]);
  }

  /** Every token counted in a range is a token of the document. */
  lemma RangeBagTokens(ss: seq<Sentence>, a: nat, b: nat, w: string)
    requires a <= b <= |ss|
    requires w in RangeBag(ss, a, b)
    ensures w in Flatten(ss)
  {
    assert w in Flatten(ss[a..b]);
    FlattenSlice(ss, a, b, w);
  }

  lemma FlattenSlice(ss: seq<Sentence>, a: nat, b: nat, w: string)
    requires a <= b <= |ss|
    requires w in Flatten(ss[a..b])
    ensures w in Flatten(ss)
    decreases a
  {
    if a > 0 {
      assert ss[a..b] == ss[1..][a - 1..b - 1];
      FlattenSlice(ss[1..], a - 1, b - 1, w);
    } else {
      assert ss == ss[..b] + ss[b..];
      FlattenAppend(ss[..b], ss[b..]);
    }
  }

  /** The builder loop: after each sentence the running multiset (acc) grows
      by that sentence and a snapshot of it is appended. */
  function CumulativeFrom(ss: seq<Sentence>, i: nat, acc: multiset<string>): (r: seq<multiset<string>>)
    requires i <= |ss|
    ensures |r| == |ss| - i
    ensures forall t :: 0 <= t < |r| ==> r[t] == acc + RangeBag(ss, i, i + t + 1)
    decreases |ss| - i
  {
    if i == |ss| then []
    else
      var acc' := acc + multiset(ss[i]);
      var rest := CumulativeFrom(ss, i + 1, acc');
      CumulativeStep(ss, i, acc, rest);
      [acc'] + rest
  }

  lemma CumulativeStep(ss: seq<Sentence>, i: nat, acc: multiset<string>, rest: seq<multiset<string>>)
    requires i < |ss| && |rest| == |ss| - i - 1
    requires forall t :: 0 <= t < |rest| ==> rest[t] == acc + multiset(ss[i]) + RangeBag(ss, i + 1, i + 1 + t + 1)
    ensures forall t :: 0 <= t <= |rest| ==>
              ([acc + multiset(ss[i])] + rest)[t] == acc + RangeBag(ss, i, i + t + 1)
  {
    var r := [acc + multiset(ss[i])] + rest;
    FirstSentenceSplit(ss, i);
    assert RangeBag(ss, i + 1, i + 1) == multiset{} by {
      assert ss[i + 1..i + 1] == [];
    }
    forall t | 0 <= t <= |rest|
      ensures r[t] == acc + RangeBag(ss, i, i + t + 1)
    {
      assert RangeBag(ss, i, i + t + 1) == multiset(ss[i]) + RangeBag(ss, i + 1, i + t + 1);
      if t > 0 {
        assert r[t] == rest[t - 1];
      }
    }
  }

  lemma FirstSentenceSplit(ss: seq<Sentence>, i: nat)
    requires i < |ss|
    ensures forall b :: i + 1 <= b <= |ss| ==>
              RangeBag(ss, i, b) == multiset(ss[i]) + RangeBag(ss, i + 1, b)
  {
    forall b | i + 1 <= b <= |ss|
      ensures RangeBag(ss, i, b) == multiset(ss[i]) + RangeBag(ss, i + 1, b)
    {
      RangeBagSplit(ss, i, i + 1, b);
      assert ss[i..i + 1] == [ss[i]];
      assert Flatten([ss[i]]) == ss[i] + Flatten([]);
    }
  }

  predicate NoDuplicates(xs: seq<string>) {
    forall i, j :: 0 <= i < j < |xs| ==> xs[i] != xs[j]
  }

  /** Position of the first occurrence of x in xs. */
  function FirstIndex(xs: seq<string>, x: string): (k: nat)
    requires x in xs
    ensures k < |xs| && xs[k] == x && x !in xs[..k]
  {
    if xs[0] == x then 0
    else
      var k := 1 + FirstIndex(xs[1..], x);
      assert xs[..k] == [xs[0]] + xs[1..][..k - 1];
      k
  }

  /** Insertion-ordered set semantics: keep each token the first time it is
      seen, skipping those already in `seen`. */
  function DistinctFrom(xs: seq<string>, seen: set<string>): (r: seq<string>)
    ensures NoDuplicates(r)
    ensures forall x :: x in r <==> x in xs && x !in seen
  {
    if |xs| == 0 then []
    else if xs[0] in seen then DistinctFrom(xs[1..], seen)
    else [xs[0]] + DistinctFrom(xs[1..], seen + {xs[0]})
  }

  /** r lists tokens of xs in the order of their first occurrences in xs. */
  predicate InFirstOccurrenceOrder(xs: seq<string>, r: seq<string>) {
    && (forall x :: x in r ==> x in xs)
    && (forall i, j :: 0 <= i < j < |r| ==> FirstIndex(xs, r[i]) < FirstIndex(xs, r[j]))
  }

  lemma FirstIndexPastHead(xs: seq<string>, y: string)
    requires |xs| > 0 && y in xs[1..] && y != xs[0]
    ensures FirstIndex(xs, y) == 1 + FirstIndex(xs[1..], y)
  {
  }
  /** Order within the tail carries over to the whole list when the head is not listed. */
  lemma OrderPastHead(xs: seq<string>, r: seq<string>)
    requires |xs| > 0 && xs[0] !in r
    requires InFirstOccurrenceOrder(xs[1..], r)
    ensures InFirstOccurrenceOrder(xs, r)
  {
    forall x | x in r
      ensures x in xs
    {
      assert x in xs[1..];
    }
    forall i, j | 0 <= i < j < |r|
      ensures FirstIndex(xs, r[i]) < FirstIndex(xs, r[j])
    {
      FirstIndexPastHead(xs, r[i]);
      FirstIndexPastHead(xs, r[j]);
    }
  }
  /** Listing the head first keeps the order. */
  lemma OrderWithHead(xs: seq<string>, r: seq<string>)
    requires |xs| > 0 && xs[0] !in r
    requires InFirstOccurrenceOrder(xs, r)
    ensures InFirstOccurrenceOrder(xs, [xs[0]] + r)
  {
    var r' := [xs[0]] + r;
    forall i, j | 0 <= i < j < |r'|
      ensures FirstIndex(xs, r'[i]) < FirstIndex(xs, r'[j])
    {
      assert r'[j] == r[j - 1];
      if i > 0 {
        assert r'[i] == r[i - 1];
      }
    }
  }
  /** The kept tokens appear in the order of their first occurrences. */
  lemma {:induction false} DistinctFromOrdered(xs: seq<string>, seen: set<string>)
    ensures InFirstOccurrenceOrder(xs, DistinctFrom(xs, seen))
  {
    if |xs| > 0 {
      var seen' := if xs[0] in seen then seen else seen + {xs[0]};
      var r' := DistinctFrom(xs[1..], seen');
      DistinctFromOrdered(xs[1..], seen');
      assert xs[0] !in r';
      OrderPastHead(xs, r');
      if xs[0] !in seen {
        OrderWithHead(xs, r');
      }
    }
  }

  /** The cumulative word counts: entry t holds every token of sentences 0..t. */
  function Cumulative(ss: seq<Sentence>): (c: seq<multiset<string>>)
    ensures |c| == |ss|
    ensures forall t :: 0 <= t < |ss| ==> c[t] == RangeBag(ss, 0, t + 1)
  {
    CumulativeFrom(ss, 0, multiset{})
  }

  /** The vocabulary: each token of the document once, in first-occurrence order. */
  function Vocabulary(ss: seq<Sentence>): (v: seq<string>)
    ensures NoDuplicates(v)
    ensures forall w :: w in v <==> w in Flatten(ss)
    ensures InFirstOccurrenceOrder(Flatten(ss), v)
  {
    DistinctFromOrdered(Flatten(ss), {});
    DistinctFrom(Flatten(ss), {})
  }

  /** The DPDocument constructor. */
  function Build(ss: seq<Sentence>): Document {
    Document(Vocabulary(ss), Cumulative(ss), |ss|)
  }

  /** Cumulative counts never decrease: each entry is contained in the next. */
  lemma CumulativeMonotone(ss: seq<Sentence>, t: nat)
    requires t + 1 < |ss|
    ensures Build(ss).cumulative[t] <= Build(ss).cumulative[t + 1]
    ensures Build(ss).cumulative[t + 1] == Build(ss).cumulative[t] + multiset(ss[t + 1])
  {
    var c := Cumulative(ss);
    assert c[t] == RangeBag(ss, 0, t + 1) && c[t + 1] == RangeBag(ss, 0, t + 2);
    RangeBagSplit(ss, 0, t + 1, t + 2);
    assert RangeBag(ss, t + 1, t + 2) == multiset(ss[t + 1]) by {
      assert ss[t + 1..t + 2] == [ss[t + 1]];
      assert Flatten([ss[t + 1]]) == ss[t + 1] + Flatten([]);
      assert ss[t + 1] + [] == ss[t + 1];
    }
  }

  /** countWordInSegment: the count through the segment's last sentence minus
      the count before its first sentence. */
  function CountWordInSegment(d: Document, w: string, seg: Segment): (r: Result<int>)
    ensures r.Err? <==> End(seg) > |d.cumulative|
    ensures r.Err? ==> r.error == IndexOutOfBounds
  {
    var last := seg.start + seg.length - 1;
    if last >= |d.cumulative| then Err(IndexOutOfBounds)
    else
      var count: int := d.cumulative[last][w];
      if seg.start > 0 then Ok(count - d.cumulative[seg.start - 1][w])
      else Ok(count)
  }

  /** The differencing trick agrees with a direct count over the sentences of
      the segment, and fails exactly when the segment runs past the end. */
  lemma CountWordMatchesDirectCount(ss: seq<Sentence>, w: string, seg: Segment)
    ensures End(seg) > |ss| ==> CountWordInSegment(Build(ss), w, seg) == Err(IndexOutOfBounds)
    ensures End(seg) <= |ss| ==>
              CountWordInSegment(Build(ss), w, seg) == Ok(RangeBag(ss, seg.start, End(seg))[w])
  {
    var d := Build(ss);
    if End(seg) <= |ss| {
      DifferenceIsDirectCount(ss, d.cumulative, w, seg);
    }
  }

  lemma DifferenceIsDirectCount(ss: seq<Sentence>, c: seq<multiset<string>>, w: string, seg: Segment)
    requires |c| == |ss| && End(seg) <= |ss|
    requires forall t :: 0 <= t < |c| ==> c[t] == RangeBag(ss, 0, t + 1)
    ensures CountWordInSegment(Document([], c, |ss|), w, seg) == Ok(RangeBag(ss, seg.start, End(seg))[w])
  {
    var last := End(seg) - 1;
    var whole := RangeBag(ss, seg.start, End(seg));
    assert c[last] == RangeBag(ss, 0, last + 1);
    if seg.start > 0 {
      var first := seg.start - 1;
      assert c[first] == RangeBag(ss, 0, first + 1);
      PrefixDifference(ss, seg.start, End(seg), w);
      assert c[last][w] as int - c[first][w] == whole[w];
    } else {
      assert c[last] == whole;
    }
  }

  lemma PrefixDifference(ss: seq<Sentence>, a: nat, b: nat, w: string)
    requires a <= b <= |ss|
    ensures RangeBag(ss, 0, b)[w] as int - RangeBag(ss, 0, a)[w] == RangeBag(ss, a, b)[w]
  {
    RangeBagSplit(ss, 0, a, b);
  }

  /** Sentences without tokens contribute nothing to a count. */
  lemma {:induction false} EmptySentencesCountZero(ss: seq<Sentence>, a: nat, b: nat, w: string)
    requires a <= b <= |ss|
    requires forall t :: a <= t < b ==> |ss[t]| == 0
    ensures RangeBag(ss, a, b)[w] == 0
    decreases b - a
  {
    if a < b {
      FirstSentenceSplit(ss, a);
      EmptySentencesCountZero(ss, a + 1, b, w);
    } else {
      assert ss[a..b] == [];
    }
  }

  /** countWordsInSegment: one count per vocabulary word, in vocabulary order.
      The stream stops at the first failing word; when the vocabulary is empty
      no count is taken and nothing can fail. */
  function CountEach(d: Document, ws: seq<string>, seg: Segment): (r: Result<seq<int>>)
    ensures |ws| == 0 ==> r == Ok([])
    ensures |ws| > 0 ==> (r.Ok? <==> End(seg) <= |d.cumulative|)
    ensures r.Err? ==> r.error == IndexOutOfBounds
    ensures r.Ok? ==> |r.value| == |ws|
    ensures r.Ok? ==> forall i :: 0 <= i < |ws| ==> Ok(r.value[i]) == CountWordInSegment(d, ws[i], seg)
  {
    if |ws| == 0 then Ok([])
    else match CountWordInSegment(d, ws[0], seg)
      case Err(e) => Err(e)
      case Ok(c) =>
        match CountEach(d, ws[1..], seg)
        case Err(e) => Err(e)
        case Ok(cs) => Ok([c] + cs)
  }

  function CountWordsInSegment(d: Document, seg: Segment): (r: Result<seq<int>>)
    ensures |d.vocabulary| == 0 ==> r == Ok([])
    ensures |d.vocabulary| > 0 ==> (r.Ok? <==> End(seg) <= |d.cumulative|)
    ensures r.Ok? ==> |r.value| == |d.vocabulary|
    ensures r.Ok? ==> forall i :: 0 <= i < |r.value| ==>
                        Ok(r.value[i]) == CountWordInSegment(d, d.vocabulary[i], seg)
  {
    CountEach(d, d.vocabulary, seg)
  }

  /** The multiplicities of m read at the distinct words v. */
  function CountsAt(m: multiset<string>, v: seq<string>): (r: seq<int>)
    ensures |r| == |v| && forall i :: 0 <= i < |v| ==> r[i] == m[v[i]]
  {
    seq(|v|, i requires 0 <= i < |v| => m[v[i]])
  }

  lemma {:induction false} CardinalityWithout(m: multiset<string>, x: string)
    ensures |m[x := 0]| + m[x] == |m|
    decreases m[x]
  {
    if m[x] > 0 {
      var m' := m - multiset{x};
      assert m == m' + multiset{x};
      assert m'[x := 0] == m[x := 0];
      CardinalityWithout(m', x);
    } else {
      assert m[x := 0] == m;
    }
  }

  /** Reading a multiset at a duplicate-free list of words covering its
      support accounts for every element exactly once. */
  lemma {:induction false} CountsAtCoverAll(m: multiset<string>, v: seq<string>)
    requires NoDuplicates(v)
    requires forall x :: x in m ==> x in v
    ensures SegmentationValue.Sum(CountsAt(m, v)) == |m|
  {
    if |v| == 0 {
      assert m == multiset{};
    } else {
      var x := v[|v| - 1];
      var v' := v[..|v| - 1];
      var m' := m[x := 0];
      assert x !in v';
      assert CountsAt(m, v)[..|v| - 1] == CountsAt(m', v');
      forall y | y in m'
        ensures y in v'
      {
        assert y in v && y != x;
      }
      CountsAtCoverAll(m', v');
      CardinalityWithout(m, x);
    }
  }

  /** The per-word counts of a segment add up to its number of tokens, because
      the vocabulary lists every token of the document exactly once. */
  lemma CountsSumToTokens(ss: seq<Sentence>, seg: Segment)
    requires End(seg) <= |ss|
    ensures CountWordsInSegment(Build(ss), seg).Ok?
    ensures SegmentationValue.Sum(CountWordsInSegment(Build(ss), seg).value)
              == |RangeBag(ss, seg.start, End(seg))|
  {
    var d := Build(ss);
    var m := RangeBag(ss, seg.start, End(seg));
    var cs := CountWordsInSegment(d, seg).value;
    forall i | 0 <= i < |cs|
      ensures cs[i] == m[d.vocabulary[i]]
    {
      CountWordMatchesDirectCount(ss, d.vocabulary[i], seg);
    }
    assert cs == CountsAt(m, d.vocabulary);
    forall x | x in m
      ensures x in d.vocabulary
    {
      RangeBagTokens(ss, seg.start, End(seg), x);
    }
    CountsAtCoverAll(m, d.vocabulary);
  }
}
