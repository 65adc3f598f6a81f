/** A contiguous run of sentences [start, start + length), the value class of
    both Segment copies of the repository. */
module Segments {
  import opened Failures
  import Decimal

  /** A (start, length) pair of Java ints, before validation. */
  datatype Span = Span(start: int, length: int)

  /** A Segment as the constructor admits it: start >= 0 and length > 0. */
  type Segment = s: Span | s.start >= 0 && s.length > 0 witness Span(0, 1)

  /** One past the last sentence of the segment. */
  function End(s: Span): int {
    s.start + s.length
  }

  /** The constructor: checkArgument on start, then on length. */
  function NewSegment(start: int, length: int): (r: Result<Segment>)
    ensures r.Ok? <==> start >= 0 && length > 0
    ensures r.Ok? ==> r.value.start == start && r.value.length == length
    ensures r.Err? ==> r.error == IllegalArgument
  {
    if start < 0 then Err(IllegalArgument)
    else if length <= 0 then Err(IllegalArgument)
    else Ok(Span(start, length))
  }

  /** Constructing from the fields of any segment rebuilds that segment;
      in particular (0, 1) is a valid segment. */
  lemma NewSegmentRebuilds(s: Segment)
    ensures NewSegment(s.start, s.length) == Ok(s)
    ensures NewSegment(0, 1).Ok?
  {
  }

  /** The argument of equals(Object): a Segment, some other object, or null. */
  datatype Object = SegmentObject(segment: Segment) | OtherObject | Null

  /** Segment.equals: only a Segment with the same start and length is equal. */
  predicate Equals(s: Segment, o: Object) {
    o.SegmentObject? && s.start == o.segment.start && s.length == o.segment.length
  }

  /** equals coincides with value equality, so it is an equivalence relation. */
  lemma EqualsIsValueEquality(a: Segment, b: Segment, c: Segment)
    ensures Equals(a, SegmentObject(b)) <==> a == b
    ensures Equals(a, SegmentObject(a))
    ensures Equals(a, SegmentObject(b)) ==> Equals(b, SegmentObject(a))
    ensures Equals(a, SegmentObject(b)) && Equals(b, SegmentObject(c)) ==> Equals(a, SegmentObject(c))
    ensures !Equals(a, OtherObject) && !Equals(a, Null)
  {
  }

  const TwoTo31: int := 0x8000_0000
  const TwoTo32: int := 0x1_0000_0000

  /** Java int arithmetic: reduce a mathematical integer to 32-bit two's complement. */
  function ToInt32(x: int): (r: int)
    ensures -TwoTo31 <= r < TwoTo31
    ensures (r - x) % TwoTo32 == 0
  {
    var m := x % TwoTo32;
    if m >= TwoTo31 then m - TwoTo32 else m
  }

  /** Segment.hashCode with Java's wrap-around: hash = 5; hash = 67 * hash + start;
      hash = 67 * hash + length. */
  function HashCode(s: Segment): int {
    var h0 := 5;
    var h1 := ToInt32(67 * h0 + s.start);
    ToInt32(67 * h1 + s.length)
  }

  /** Equal segments hash alike, and when nothing overflows the hash is the
      exact polynomial 67 * (67 * 5 + start) + length. */
  lemma HashCodeAgreesWithEquals(a: Segment, b: Segment)
    ensures Equals(a, SegmentObject(b)) ==> HashCode(a) == HashCode(b)
    ensures 67 * (335 + a.start) + a.length < TwoTo31 ==> HashCode(a) == 67 * (335 + a.start) + a.length
  {
    if 67 * (335 + a.start) + a.length < TwoTo31 {
      assert 335 + a.start < TwoTo31;
      assert ToInt32(335 + a.start) == 335 + a.start;
    }
  }

  /** Below the overflow bound, segments with lengths under 67 never collide. */
  lemma {:induction false} HashCodeInjectiveWhenSmall(a: Segment, b: Segment)
    requires a.length < 67 && b.length < 67
    requires 67 * (335 + a.start) + a.length < TwoTo31
    requires 67 * (335 + b.start) + b.length < TwoTo31
    requires HashCode(a) == HashCode(b)
    ensures a == b
  {
    HashCodeAgreesWithEquals(a, a);
    HashCodeAgreesWithEquals(b, b);
    var d := a.start - b.start;
    assert 67 * d == b.length - a.length;
  }

  /** Segment.toString: "(start,length)". */
  function ToString(s: Segment): string {
    "(" + Decimal.NatToString(s.start) + "," + Decimal.NatToString(s.length) + ")"
  }

  /** Reads back a string of the form "(digits,digits)". */
  function ParseSegmentString(t: string): Option<(nat, nat)> {
    if |t| < 2 || t[0] != '(' then None
    else
      var a := Decimal.DigitRun(t[1..]);
      if a == 0 || 1 + a >= |t| || t[1 + a] != ',' then None
      else
        var rest := t[2 + a..];
        var b := Decimal.DigitRun(rest);
        if b == 0 || rest[b..] != ")" then None
        else Some((Decimal.ParseNat(t[1..][..a]), Decimal.ParseNat(rest[..b])))
  }

  /** toString loses nothing: the start and length can be read back from it. */
  lemma ToStringRoundTrip(s: Segment)
    ensures ParseSegmentString(ToString(s)) == Some((s.start, s.length))
  {
    var t := ToString(s);
    var ds := Decimal.NatToString(s.start);
    var dl := Decimal.NatToString(s.length);
    assert t == "(" + ds + "," + dl + ")";
    assert t[1..] == ds + ("," + dl + ")");
    Decimal.DigitRunOfDigits(ds, "," + dl + ")");
    assert t[1..][..|ds|] == ds;
    assert t[1 + |ds|] == ',';
    var rest := t[2 + |ds|..];
    assert rest == dl + ")";
    Decimal.DigitRunOfDigits(dl, ")");
    assert rest[..|dl|] == dl;
    assert rest[|dl|..] == ")";
    Decimal.ParseNatToString(s.start);
    Decimal.ParseNatToString(s.length);
  }
}
