/** DPSeg: a set of documents with a segment count each; segment runs the
    dynamic program on every document, and computeOverDocuments sums a
    function of the word counts over every segment of every document. */
module DPSegmenter {
  import opened Failures
  import opened Segments
  import opened SegmentationValue
  import opened DocumentStats
  import opened DynamicProgram

  /** DirichletMultinomial.logLikelihood(α, counts) for a fixed α, or any
      other function of a segment's word counts (the gradient). */
  type CountFn = seq<int> -> real

  /** The fields of a DPSeg. Every document key has a segment count, which the
      constructor checks, and every document has one cumulative count per
      sentence, which DPDocument guarantees. */
  datatype State = State(documents: map<string, Document>, segmentCounts: map<string, int>)

  predicate Valid(m: State) {
    && m.documents.Keys <= m.segmentCounts.Keys
    && forall k :: k in m.documents ==> m.documents[k].sentenceCount == |m.documents[k].cumulative|
  }

  /** The DPSeg constructor: checkArgument that every text has a count, then
      one DPDocument per text. */
  function NewDPSeg(texts: map<string, seq<Sentence>>, counts: map<string, int>): (r: Result<State>)
    ensures r.Ok? <==> texts.Keys <= counts.Keys
    ensures r.Err? ==> r.error == IllegalArgument
    ensures r.Ok? ==> Valid(r.value) && r.value.segmentCounts == counts
    ensures r.Ok? ==> r.value.documents.Keys == texts.Keys
    ensures r.Ok? ==> forall k :: k in texts ==> r.value.documents[k].sentenceCount == |texts[k]|
    ensures r.Ok? ==> forall k :: k in texts ==> r.value.documents[k] == Build(texts[k])
  {
    if texts.Keys <= counts.Keys then Ok(State(map k | k in texts :: Build(texts[k]), counts))
    else Err(IllegalArgument)
  }

  /** segLLs for one document: f of the word counts of each segment inside it. */
  function DocScore(d: Document, f: CountFn): ScoreFn {
    (s: nat, l: nat) =>
      if 0 < l && s + l <= |d.cumulative| then f(CountWordsInSegment(d, Span(s, l)).value) else 0.0
  }

  /** What bestSegmentationOf does for document k. */
  function DocOutcome(m: State, f: CountFn, k: string): Result<seq<Segment>>
    requires Valid(m) && k in m.documents
  {
    var d := m.documents[k];
    Outcome(DocScore(d, f), d.sentenceCount, m.segmentCounts[k])
  }

  /** The reference for segment: documents in iteration order, stopping at the
      first one whose dynamic program throws. */
  function SegmentSpec(m: State, f: CountFn, order: seq<string>): Result<map<string, Segmentation>>
    requires Valid(m) && forall k :: k in order ==> k in m.documents
  {
    if |order| == 0 then Ok(map[])
    else
      var k := order[|order| - 1];
      var earlier :- SegmentSpec(m, f, order[..|order| - 1]);
      var p :- DocOutcome(m, f, k);
      Ok(earlier[k := Segmentation(p)])
  }

  /** segment succeeds exactly when every document's dynamic program does; it
      then maps each key to its best segmentation, and otherwise throws what
      some document's dynamic program throws. */
  lemma SegmentSpecProperties(m: State, f: CountFn, order: seq<string>)
    requires Valid(m) && forall k :: k in order ==> k in m.documents
    ensures SegmentSpec(m, f, order).Ok? <==> forall k :: k in order ==> DocOutcome(m, f, k).Ok?
    ensures SegmentSpec(m, f, order).Ok? ==> SegmentSpec(m, f, order).value.Keys == set k | k in order
    ensures SegmentSpec(m, f, order).Ok? ==> forall k :: k in SegmentSpec(m, f, order).value ==>
              SegmentSpec(m, f, order).value[k] == Segmentation(DocOutcome(m, f, k).value)
    ensures SegmentSpec(m, f, order).Err? ==> exists k :: k in order && DocOutcome(m, f, k) == Err(SegmentSpec(m, f, order).error)
  {
    SegmentSpecSucceeds(m, f, order);
    SegmentSpecContents(m, f, order);
    SegmentSpecFailure(m, f, order);
  }

  lemma {:induction false} SegmentSpecSucceeds(m: State, f: CountFn, order: seq<string>)
    requires Valid(m) && forall k :: k in order ==> k in m.documents
    ensures SegmentSpec(m, f, order).Ok? <==> forall k :: k in order ==> DocOutcome(m, f, k).Ok?
  {
    if |order| > 0 {
      var front := order[..|order| - 1];
      var k := order[|order| - 1];
      SegmentSpecSucceeds(m, f, front);
      assert order == front + [k];
      assert forall x :: x in order <==> x in front || x == k;
    }
  }

  lemma {:induction false} SegmentSpecContents(m: State, f: CountFn, order: seq<string>)
    requires Valid(m) && forall k :: k in order ==> k in m.documents
    ensures SegmentSpec(m, f, order).Ok? ==> SegmentSpec(m, f, order).value.Keys == set k | k in order
    ensures SegmentSpec(m, f, order).Ok? ==> forall k :: k in SegmentSpec(m, f, order).value ==>
              DocOutcome(m, f, k).Ok? && SegmentSpec(m, f, order).value[k] == Segmentation(DocOutcome(m, f, k).value)
  {
    SegmentSpecKeys(m, f, order);
    SegmentSpecValues(m, f, order);
  }

  lemma {:induction false} SegmentSpecKeys(m: State, f: CountFn, order: seq<string>)
    requires Valid(m) && forall k :: k in order ==> k in m.documents
    ensures SegmentSpec(m, f, order).Ok? ==> SegmentSpec(m, f, order).value.Keys == set k | k in order
  {
    if |order| > 0 && SegmentSpec(m, f, order).Ok? {
      var front := order[..|order| - 1];
      var k := order[|order| - 1];
      SegmentSpecKeys(m, f, front);
      assert SegmentSpec(m, f, order).value.Keys == SegmentSpec(m, f, front).value.Keys + {k};
      assert (set x | x in order) == (set x | x in front) + {k} by {
        assert order == front + [k];
      }
    }
  }

  lemma {:induction false} SegmentSpecValues(m: State, f: CountFn, order: seq<string>)
    requires Valid(m) && forall k :: k in order ==> k in m.documents
    ensures SegmentSpec(m, f, order).Ok? ==> forall k :: k in order ==>
              && k in SegmentSpec(m, f, order).value && DocOutcome(m, f, k).Ok?
              && SegmentSpec(m, f, order).value[k] == Segmentation(DocOutcome(m, f, k).value)
  {
    if |order| > 0 && SegmentSpec(m, f, order).Ok? {
      var front := order[..|order| - 1];
      var k := order[|order| - 1];
      SegmentSpecValues(m, f, front);
      var earlier := SegmentSpec(m, f, front).value;
      var now := SegmentSpec(m, f, order).value;
      assert now == earlier[k := Segmentation(DocOutcome(m, f, k).value)];
      forall x | x in order
        ensures x in front || x == k
      {
        assert order == front + [k];
      }
    }
  }

  lemma {:induction false} SegmentSpecFailure(m: State, f: CountFn, order: seq<string>)
    requires Valid(m) && forall k :: k in order ==> k in m.documents
    ensures SegmentSpec(m, f, order).Err? ==> exists k :: k in order && DocOutcome(m, f, k) == Err(SegmentSpec(m, f, order).error)
  {
    if |order| > 0 && SegmentSpec(m, f, order).Err? {
      var front := order[..|order| - 1];
      var k := order[|order| - 1];
      SegmentSpecFailure(m, f, front);
      assert order == front + [k];
      if SegmentSpec(m, f, front).Ok? {
        assert DocOutcome(m, f, k) == Err(SegmentSpec(m, f, order).error);
      } else {
        var j :| j in front && DocOutcome(m, f, j) == Err(SegmentSpec(m, f, front).error);
        assert j in order;
      }
    }
  }

  /** DPSeg.segment: runs bestSegmentationOf on each document in the key set's
      iteration order, which the caller supplies. */
  method Segment(m: State, f: CountFn, order: seq<string>) returns (r: Result<map<string, Segmentation>>)
    requires Valid(m)
    requires NoDuplicates(order) && forall k :: k in order <==> k in m.documents
    ensures r == SegmentSpec(m, f, order)
    ensures r.Ok? <==> forall k :: k in m.documents ==> DocOutcome(m, f, k).Ok?
    ensures r.Ok? ==> r.value.Keys == m.documents.Keys
    ensures r.Ok? ==> forall k :: k in r.value ==> r.value[k] == Segmentation(DocOutcome(m, f, k).value)
  {
    var segmentations: map<string, Segmentation> := map[];
    var j := 0;
    while j < |order|
      invariant 0 <= j <= |order|
      invariant SegmentSpec(m, f, order[..j]) == Ok(segmentations)
    {
      var key := order[j];
      var d := m.documents[key];
      var best := BestSegmentationOf(d.sentenceCount, m.segmentCounts[key], DocScore(d, f));
      SegmentSpecStep(m, f, order, j);
      if best.Err? {
        SegmentSpecPrefixFails(m, f, order, j + 1);
        return Err(best.error);
      }
      segmentations := segmentations[key := Segmentation(best.value)];
      j := j + 1;
    }
    assert order[..|order|] == order;
    SegmentSpecProperties(m, f, order);
    assert (set k | k in order) == m.documents.Keys;
    return Ok(segmentations);
  }

  /** SegmentSpec over one more key of the order. */
  lemma SegmentSpecStep(m: State, f: CountFn, order: seq<string>, j: nat)
    requires Valid(m) && forall k :: k in order ==> k in m.documents
    requires j < |order|
    ensures var earlier := SegmentSpec(m, f, order[..j]);
            var outcome := DocOutcome(m, f, order[j]);
            SegmentSpec(m, f, order[..j + 1]) ==
              if earlier.Err? then earlier
              else if outcome.Err? then Err(outcome.error)
              else Ok(earlier.value[order[j] := Segmentation(outcome.value)])
  {
    assert order[..j + 1][..j] == order[..j];
  }

  /** Once a prefix of the iteration order fails, the whole run fails the same way. */
  lemma {:induction false} SegmentSpecPrefixFails(m: State, f: CountFn, order: seq<string>, j: nat)
    requires Valid(m) && forall k :: k in order ==> k in m.documents
    requires j <= |order| && SegmentSpec(m, f, order[..j]).Err?
    ensures SegmentSpec(m, f, order) == SegmentSpec(m, f, order[..j])
    decreases |order| - j
  {
    if j < |order| {
      assert order[..j + 1][..j] == order[..j];
      SegmentSpecPrefixFails(m, f, order, j + 1);
    } else {
      assert order[..j] == order;
    }
  }

  /** The inner stream of computeOverDocuments: f of the word counts of each
      segment of one document, summed. */
  function DocumentSum(d: Document, f: CountFn, p: seq<Segment>): Result<real> {
    if |p| == 0 then Ok(0.0)
    else
      var earlier :- DocumentSum(d, f, p[..|p| - 1]);
      var counts :- CountWordsInSegment(d, p[|p| - 1]);
      Ok(earlier + f(counts))
  }

  /** computeOverDocuments: the per-document sums added over the documents in
      iteration order; a document without a segmentation dereferences null. */
  function ComputeOverDocuments(m: State, segs: map<string, Segmentation>, f: CountFn, order: seq<string>): Result<real>
    requires forall k :: k in order ==> k in m.documents
  {
    if |order| == 0 then Ok(0.0)
    else
      var k := order[|order| - 1];
      var earlier :- ComputeOverDocuments(m, segs, f, order[..|order| - 1]);
      if k !in segs then Err(NullPointer)
      else
        var v :- DocumentSum(m.documents[k], f, segs[k].segments);
        Ok(earlier + v)
  }

  /** Every segment of a tiling of [0, n) lies inside [0, n). */
  lemma {:induction false} PartitionsInRange(p: seq<Segment>, n: int)
    requires Partitions(p, n)
    ensures forall j :: 0 <= j < |p| ==> End(p[j]) <= n
  {
    if |p| > 0 {
      var q := p[..|p| - 1];
      var x := p[|p| - 1];
      assert p == q + [x];
      PartitionsSnoc(q, x, n);
      PartitionsInRange(q, x.start);
      forall j | 0 <= j < |p|
        ensures End(p[j]) <= n
      {
        if j < |q| {
          assert p[j] == q[j];
        }
      }
    }
  }

  /** For a segmentation inside the document, the per-document sum is the
      total of the segment scores the dynamic program maximised. */
  lemma {:induction false} DocumentSumIsTotal(d: Document, f: CountFn, p: seq<Segment>)
    requires forall j :: 0 <= j < |p| ==> End(p[j]) <= |d.cumulative|
    ensures DocumentSum(d, f, p) == Ok(Total(DocScore(d, f), p))
  {
    if |p| > 0 {
      DocumentSumIsTotal(d, f, p[..|p| - 1]);
    }
  }

  /** The E-step maximises the objective: with the segmentations segment
      returns, computeOverDocuments(f) is at least its value for any other
      choice of tilings with the same segment counts. */
  lemma {:induction false} SegmentMaximisesObjective(
    m: State, f: CountFn, order: seq<string>,
    segs: map<string, Segmentation>, other: map<string, Segmentation>)
    requires Valid(m) && forall k :: k in order ==> k in m.documents
    requires SegmentSpec(m, f, order) == Ok(segs)
    requires forall k :: k in order ==> k in other
    requires forall k :: k in order ==>
               && |other[k].segments| == m.segmentCounts[k]
               && Partitions(other[k].segments, m.documents[k].sentenceCount)
    ensures ComputeOverDocuments(m, segs, f, order).Ok?
    ensures ComputeOverDocuments(m, other, f, order).Ok?
    ensures ComputeOverDocuments(m, other, f, order).value <= ComputeOverDocuments(m, segs, f, order).value
  {
    if |order| > 0 {
      var front := order[..|order| - 1];
      var k := order[|order| - 1];
      var earlier := SegmentSpec(m, f, front);
      assert earlier.Ok?;
      SegmentSpecProperties(m, f, front);
      SegmentSpecProperties(m, f, order);
      assert k in segs && segs[k] == Segmentation(DocOutcome(m, f, k).value);
      SegmentMaximisesObjective(m, f, front, earlier.value, other);
      ComputeOverDocumentsAgree(m, f, front, earlier.value, segs);
      var d := m.documents[k];
      var K := m.segmentCounts[k];
      var best := DocOutcome(m, f, k).value;
      assert 1 <= K <= d.sentenceCount;
      OptimalAchievesBest(DocScore(d, f), K, d.sentenceCount);
      PartitionsInRange(best, d.sentenceCount);
      PartitionsInRange(other[k].segments, d.sentenceCount);
      DocumentSumIsTotal(d, f, best);
      DocumentSumIsTotal(d, f, other[k].segments);
      NoPartitionBeatsBest(DocScore(d, f), other[k].segments, d.sentenceCount);
    }
  }

  /** computeOverDocuments over some keys only reads the segmentations of those keys. */
  lemma {:induction false} ComputeOverDocumentsAgree(
    m: State, f: CountFn, order: seq<string>, a: map<string, Segmentation>, b: map<string, Segmentation>)
    requires forall k :: k in order ==> k in m.documents
    requires forall k :: k in order ==> k in a && k in b && a[k] == b[k]
    ensures ComputeOverDocuments(m, a, f, order) == ComputeOverDocuments(m, b, f, order)
  {
    if |order| > 0 {
      ComputeOverDocumentsAgree(m, f, order[..|order| - 1], a, b);
    }
  }
}
