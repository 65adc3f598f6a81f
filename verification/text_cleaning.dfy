/** The text normalisers: clean (in.aesh.segment.Utils and BayesSegWrapper)
    and removeStopwords, on ASCII text. */
module TextCleaning {
  import Decimal

  /** Keep the elements that satisfy keep, in order: a stream filter, or
      CharMatcher.retainFrom on a string. */
  function Filter<T>(xs: seq<T>, keep: T -> bool): (r: seq<T>)
    ensures |r| <= |xs|
  {
    if |xs| == 0 then []
    else (if keep(xs[0]) then [xs[0]] else []) + Filter(xs[1..], keep)
  }

  /** The filter keeps exactly the elements that satisfy keep. */
  lemma {:induction false} FilterMembership<T>(xs: seq<T>, keep: T -> bool)
    ensures forall x :: x in Filter(xs, keep) <==> x in xs && keep(x)
  {
    if |xs| > 0 {
      FilterMembership(xs[1..], keep);
      assert xs == [xs[0]] + xs[1..];
    }
  }

  lemma FilterCons<T>(x: T, xs: seq<T>, keep: T -> bool)
    ensures Filter([x] + xs, keep) == (if keep(x) then [x] else []) + Filter(xs, keep)
  {
    assert ([x] + xs)[1..] == xs;
  }

  /** Filtering distributes over concatenation. */
  lemma {:induction false} FilterAppend<T>(a: seq<T>, b: seq<T>, keep: T -> bool)
    ensures Filter(a + b, keep) == Filter(a, keep) + Filter(b, keep)
  {
    if |a| > 0 {
      assert a + b == [a[0]] + (a[1..] + b);
      FilterCons(a[0], a[1..] + b, keep);
      FilterAppend(a[1..], b, keep);
    } else {
      assert a + b == b;
    }
  }

  /** Two filters in a row keep what satisfies both. */
  lemma {:induction false} FilterFilter<T>(xs: seq<T>, p: T -> bool, q: T -> bool, both: T -> bool)
    requires forall x :: both(x) == (p(x) && q(x))
    ensures Filter(Filter(xs, p), q) == Filter(xs, both)
  {
    if |xs| > 0 {
      FilterFilter(xs[1..], p, q, both);
      if p(xs[0]) {
        FilterCons(xs[0], Filter(xs[1..], p), q);
      } else {
        assert Filter(xs, p) == Filter(xs[1..], p);
      }
    }
  }

  /** A filter that keeps everything changes nothing. */
  lemma {:induction false} FilterKeepsAll<T>(xs: seq<T>, keep: T -> bool)
    requires forall i :: 0 <= i < |xs| ==> keep(xs[i])
    ensures Filter(xs, keep) == xs
  {
    if |xs| > 0 {
      FilterKeepsAll(xs[1..], keep);
    }
  }

  predicate IsAscii(s: string) {
    forall i :: 0 <= i < |s| ==> s[i] < 128 as char
  }

  /** CharMatcher.JAVA_LOWER_CASE on ASCII. */
  predicate IsLowerLetter(c: char) {
    'a' <= c <= 'z'
  }

  /** CharMatcher.WHITESPACE on ASCII: tab, line feed, vertical tab, form
      feed, carriage return and space. */
  predicate IsWhitespace(c: char) {
    c == ' ' || 9 as char <= c <= 13 as char
  }

  predicate NotWhitespace(c: char) {
    !IsWhitespace(c)
  }

  /** String.toLowerCase on ASCII. */
  function ToLower(c: char): char {
    if 'A' <= c <= 'Z' then (c as int + 32) as char else c
  }

  function Lower(s: string): (r: string)
    ensures |r| == |s| && forall i :: 0 <= i < |s| ==> r[i] == ToLower(s[i])
  {
    seq(|s|, i requires 0 <= i < |s| => ToLower(s[i]))
  }

  /** The characters Utils.clean retains. */
  predicate KeptByUtils(c: char) {
    IsLowerLetter(c) || IsWhitespace(c) || c == '$' || c == '\''
  }

  /** The characters BayesSegWrapper.clean retains. */
  predicate KeptByWrapper(c: char) {
    IsLowerLetter(c) || Decimal.IsDigit(c) || IsWhitespace(c) || c == '\'' || c == '`' || c == '$'
  }

  /** The retained characters other than whitespace. */
  predicate VisibleForUtils(c: char) {
    IsLowerLetter(c) || c == '$' || c == '\''
  }

  predicate VisibleForWrapper(c: char) {
    IsLowerLetter(c) || Decimal.IsDigit(c) || c == '\'' || c == '`' || c == '$'
  }

  /** The text without its whitespace. */
  function Squeeze(s: string): string {
    Filter(s, NotWhitespace)
  }

  /** Every space is followed by a character that is not whitespace: so no
      trailing space and no two spaces in a row. */
  predicate SpaceFollowed(s: string) {
    forall i :: 0 <= i < |s| && s[i] == ' ' ==> i + 1 < |s| && !IsWhitespace(s[i + 1])
  }

  lemma ConsSpace(b: string)
    requires SpaceFollowed(b) && |b| > 0 && !IsWhitespace(b[0])
    ensures SpaceFollowed([' '] + b)
  {
    var s := [' '] + b;
    forall i | 0 <= i < |s| && s[i] == ' '
      ensures i + 1 < |s| && !IsWhitespace(s[i + 1])
    {
      if i > 0 {
        assert s[i] == b[i - 1];
      }
    }
  }

  lemma ConsOther(c: char, b: string)
    requires c != ' ' && SpaceFollowed(b)
    ensures SpaceFollowed([c] + b)
  {
    var s := [c] + b;
    forall i | 0 <= i < |s| && s[i] == ' '
      ensures i + 1 < |s| && !IsWhitespace(s[i + 1])
    {
      assert i > 0 && s[i] == b[i - 1];
    }
  }

  /** CharMatcher.WHITESPACE.trimAndCollapseFrom(s, ' ') as a scan: started
      says a non-whitespace character has been emitted, gap that whitespace
      has been seen since then. Leading and trailing whitespace vanish and
      each inner run becomes one space. */
  function Collapse(s: string, started: bool, gap: bool): string {
    if |s| == 0 then ""
    else if IsWhitespace(s[0]) then Collapse(s[1..], started, started)
    else
      var rest := Collapse(s[1..], true, false);
      if gap then [' '] + ([s[0]] + rest) else [s[0]] + rest
  }

  function TrimAndCollapse(s: string): string {
    Collapse(s, false, false)
  }

  /** The collapsed text is well spaced, has only spaces for whitespace, and
      keeps the non-whitespace characters in order. */
  lemma {:induction false} CollapseShape(s: string, started: bool, gap: bool)
    requires started || !gap
    ensures SpaceFollowed(Collapse(s, started, gap))
    ensures !started ==> |Collapse(s, started, gap)| == 0 || Collapse(s, started, gap)[0] != ' '
    ensures forall c :: c in Collapse(s, started, gap) ==> (c in s && !IsWhitespace(c)) || c == ' '
    ensures Squeeze(Collapse(s, started, gap)) == Squeeze(s)
  {
    if |s| > 0 {
      FilterCons(s[0], s[1..], NotWhitespace);
      assert s == [s[0]] + s[1..];
      if IsWhitespace(s[0]) {
        CollapseShape(s[1..], started, started);
      } else {
        var rest := Collapse(s[1..], true, false);
        CollapseShape(s[1..], true, false);
        ConsOther(s[0], rest);
        FilterCons(s[0], rest, NotWhitespace);
        if gap {
          ConsSpace([s[0]] + rest);
          FilterCons(' ', [s[0]] + rest, NotWhitespace);
        }
      }
    }
  }

  /** The length of the run of non-whitespace characters s starts with. */
  function WordLength(s: string): (k: nat)
    ensures k <= |s|
    ensures |s| > 0 && !IsWhitespace(s[0]) ==> k >= 1
    ensures forall i :: 0 <= i < k ==> !IsWhitespace(s[i])
    ensures k < |s| ==> IsWhitespace(s[k])
  {
    if |s| == 0 || IsWhitespace(s[0]) then 0 else 1 + WordLength(s[1..])
  }

  /** The words of s: its maximal runs of non-whitespace characters, in order. */
  function Words(s: string): seq<string>
    decreases |s|
  {
    if |s| == 0 then []
    else if IsWhitespace(s[0]) then Words(s[1..])
    else
      var k := WordLength(s);
      [s[..k]] + Words(s[k..])
  }

  /** The words joined by single spaces. */
  function Unwords(ws: seq<string>): string {
    if |ws| == 0 then "" else ws[0] + (if |ws| == 1 then "" else " " + Unwords(ws[1..]))
  }

  /** Every word is non-empty and holds no whitespace. */
  lemma {:induction false} WordsShape(s: string)
    ensures forall i :: 0 <= i < |Words(s)| ==>
              |Words(s)[i]| > 0 && forall c :: c in Words(s)[i] ==> !IsWhitespace(c)
    decreases |s|
  {
    if |s| > 0 {
      if IsWhitespace(s[0]) {
        WordsShape(s[1..]);
      } else {
        var k := WordLength(s);
        WordsShape(s[k..]);
        var ws := Words(s);
        assert ws == [s[..k]] + Words(s[k..]);
        forall i | 0 <= i < |ws|
          ensures |ws[i]| > 0 && forall c :: c in ws[i] ==> !IsWhitespace(c)
        {
          if i == 0 {
            assert ws[0] == s[..k];
          } else {
            assert ws[i] == Words(s[k..])[i - 1];
          }
        }
      }
    }
  }

  lemma UnwordsCons(w: string, rest: seq<string>)
    ensures Unwords([w] + rest) == w + (if |rest| == 0 then "" else " " + Unwords(rest))
  {
    assert ([w] + rest)[1..] == rest;
  }

  /** The words of a text starting with a visible character, in terms of the
      words of its tail: the first character joins the tail's first word
      unless whitespace follows it. */
  lemma WordsStep(s: string)
    requires |s| > 0 && !IsWhitespace(s[0])
    ensures Unwords(Words(s)) ==
              [s[0]] + (if Words(s[1..]) == [] then ""
                        else (if IsWhitespace(s[1]) then " " else "") + Unwords(Words(s[1..])))
  {
    if |s| == 1 || IsWhitespace(s[1]) {
      WordEndsAtFirst(s);
    } else {
      WordContinues(s);
    }
  }

  lemma WordEndsAtFirst(s: string)
    requires |s| > 0 && !IsWhitespace(s[0]) && (|s| == 1 || IsWhitespace(s[1]))
    ensures Unwords(Words(s)) == [s[0]] + (if Words(s[1..]) == [] then "" else " " + Unwords(Words(s[1..])))
  {
    assert WordLength(s) == 1;
    assert s[..1] == [s[0]];
    assert Words(s) == [[s[0]]] + Words(s[1..]);
    UnwordsCons([s[0]], Words(s[1..]));
  }

  lemma UnwordsPrepend(a: char, w: string, rest: seq<string>)
    ensures Unwords([[a] + w] + rest) == [a] + Unwords([w] + rest)
  {
    UnwordsCons([a] + w, rest);
    UnwordsCons(w, rest);
  }

  lemma WordsOfVisible(s: string)
    requires |s| > 0 && !IsWhitespace(s[0])
    ensures Words(s) == [s[..WordLength(s)]] + Words(s[WordLength(s)..])
  {
  }

  lemma SliceAfterFirst(s: string, k: nat)
    requires k < |s|
    ensures s[..1 + k] == [s[0]] + s[1..][..k]
    ensures s[1 + k..] == s[1..][k..]
  {
  }

  lemma WordContinues(s: string)
    requires |s| > 1 && !IsWhitespace(s[0]) && !IsWhitespace(s[1])
    ensures Words(s[1..]) != []
    ensures Unwords(Words(s)) == [s[0]] + Unwords(Words(s[1..]))
  {
    var t := s[1..];
    var k' := WordLength(t);
    WordsOfVisible(t);
    WordsOfVisible(s);
    assert WordLength(s) == 1 + k';
    SliceAfterFirst(s, k');
    UnwordsPrepend(s[0], t[..k'], Words(t[k'..]));
  }

  /** trimAndCollapseFrom(s, ' ') as the Collapse scan computes it: the words
      of s joined by single spaces, after one space when the scan has started
      and whitespace separates it from the first word. */
  lemma {:induction false} CollapseWords(s: string, started: bool, gap: bool)
    requires started || !gap
    ensures Collapse(s, started, gap) ==
              if Words(s) == [] then ""
              else (if started && (gap || IsWhitespace(s[0])) then " " else "") + Unwords(Words(s))
    decreases |s|
  {
    if |s| > 0 {
      if IsWhitespace(s[0]) {
        CollapseWords(s[1..], started, started);
      } else {
        CollapseWords(s[1..], true, false);
        WordsStep(s);
      }
    }
  }

  /** Trimming and collapsing joins the words of the text by single spaces:
      two visible characters end up one space apart exactly when whitespace
      separates them, and adjacent otherwise. */
  lemma TrimAndCollapseJoinsWords(s: string)
    ensures TrimAndCollapse(s) == Unwords(Words(s))
  {
    CollapseWords(s, false, false);
  }

  /** A letter, an apostrophe and a letter start at i. */
  predicate ContractionAt(s: string, i: nat) {
    i + 2 < |s| && IsLowerLetter(s[i]) && s[i + 1] == '\'' && IsLowerLetter(s[i + 2])
  }

  /** replaceAll("([a-z])('[a-z])", "$1 $2"), equally
      replaceAll("([a-z])(')([a-z])", "$1 '$3"): scanning left to right, each
      non-overlapping letter-apostrophe-letter gets a space before the
      apostrophe. */
  function SplitContractions(s: string): string {
    if |s| == 0 then ""
    else if ContractionAt(s, 0) then [s[0], ' ', '\'', s[2]] + SplitContractions(s[3..])
    else [s[0]] + SplitContractions(s[1..])
  }

  /** The left-to-right scan of replaceAll matches letter-apostrophe-letter
      at i: the text matches there, and no match starting two characters
      earlier (the only earlier match that can reach i) has consumed s[i]. */
  predicate MatchAt(s: string, i: nat)
    decreases i
  {
    ContractionAt(s, i) && !(i >= 2 && MatchAt(s, i - 2))
  }

  /** The characters of s from j on, with one space before character j
      exactly when a match starts at j - 1, that is, before the apostrophe of
      every match. */
  function SpacedFrom(s: string, j: nat): string
    decreases |s| - j
  {
    if j >= |s| then ""
    else (if j >= 1 && MatchAt(s, j - 1) then " " else "") + [s[j]] + SpacedFrom(s, j + 1)
  }

  /** Position k is where the scan resumes: no match covers s[k]. */
  predicate ScanBoundary(s: string, k: nat) {
    && !(k >= 1 && MatchAt(s, k - 1))
    && (k >= 2 && MatchAt(s, k - 2) ==> !ContractionAt(s, k))
  }

  /** A match at a boundary k: the scan emits its three characters with a
      space before the apostrophe and resumes at the boundary k + 3. */
  lemma SpacedMatch(s: string, k: nat)
    requires ScanBoundary(s, k) && ContractionAt(s, k)
    ensures MatchAt(s, k)
    ensures SpacedFrom(s, k) == [s[k], ' ', '\'', s[k + 2]] + SpacedFrom(s, k + 3)
    ensures ScanBoundary(s, k + 3)
  {
    MatchesAfterMatch(s, k);
    var r := SpacedFrom(s, k + 3);
    SpacedUnmatched(s, k + 2);
    SpacedUnmatched(s, k);
    var r1 := SpacedFrom(s, k + 1);
    assert r1 == " " + [s[k + 1]] + ([s[k + 2]] + r);
    assert [s[k]] + r1 == [s[k], ' ', '\'', s[k + 2]] + r;
  }

  /** Where no match starts just before j, the scan copies s[j]. */
  lemma SpacedUnmatched(s: string, j: nat)
    requires j < |s| && !(j >= 1 && MatchAt(s, j - 1))
    ensures SpacedFrom(s, j) == [s[j]] + SpacedFrom(s, j + 1)
  {
  }

  /** A match at a boundary consumes the next two positions. */
  lemma MatchesAfterMatch(s: string, k: nat)
    requires ScanBoundary(s, k) && ContractionAt(s, k)
    ensures MatchAt(s, k) && !MatchAt(s, k + 1) && !MatchAt(s, k + 2)
    ensures ScanBoundary(s, k + 3)
  {
    assert MatchAt(s, k);
    assert !ContractionAt(s, k + 1);
  }

  /** No match at a boundary k: the scan emits s[k] alone and resumes at the
      boundary k + 1. */
  lemma SpacedPlain(s: string, k: nat)
    requires k < |s| && ScanBoundary(s, k) && !ContractionAt(s, k)
    ensures SpacedFrom(s, k) == [s[k]] + SpacedFrom(s, k + 1)
    ensures ScanBoundary(s, k + 1)
  {
    assert !MatchAt(s, k);
  }

  lemma {:induction false} SplitFromBoundary(s: string, k: nat)
    requires k <= |s| && ScanBoundary(s, k)
    ensures SplitContractions(s[k..]) == SpacedFrom(s, k)
    decreases |s| - k
  {
    if k < |s| {
      var t := s[k..];
      if ContractionAt(s, k) {
        assert ContractionAt(t, 0);
        SpacedMatch(s, k);
        SplitFromBoundary(s, k + 3);
        assert t[3..] == s[k + 3..];
      } else {
        assert !ContractionAt(t, 0);
        SpacedPlain(s, k);
        SplitFromBoundary(s, k + 1);
        assert t[1..] == s[k + 1..];
      }
    }
  }

  /** The replacement puts exactly one space before the apostrophe of each
      leftmost non-overlapping letter-apostrophe-letter match and changes
      nothing else. */
  lemma SplitContractionsSpacesMatches(s: string)
    ensures SplitContractions(s) == SpacedFrom(s, 0)
  {
    assert s[0..] == s;
    SplitFromBoundary(s, 0);
  }

  /** Matches do not overlap: in "a'b'c" the second apostrophe's letters are
      not a match, because the first match has consumed the b. */
  lemma OverlappingMatchSkipped()
    ensures MatchAt("a'b'c", 0) && !MatchAt("a'b'c", 2)
    ensures SplitContractions("a'b'c") == "a 'b'c"
  {
    assert SplitContractions("c") == "c";
    assert SplitContractions("'c") == "'c";
  }

  /** Splitting keeps the first character and adds nothing but spaces. */
  lemma {:induction false} SplitChars(s: string)
    ensures |s| > 0 ==> |SplitContractions(s)| > 0 && SplitContractions(s)[0] == s[0]
    ensures forall c :: c in SplitContractions(s) ==> c in s || c == ' '
  {
    if |s| > 0 {
      if ContractionAt(s, 0) {
        SplitChars(s[3..]);
        forall c | c in s[3..]
          ensures c in s
        {
          assert s == s[..3] + s[3..];
        }
      } else {
        SplitChars(s[1..]);
        assert s == [s[0]] + s[1..];
      }
    }
  }

  /** Splitting only inserts spaces: without whitespace the text is unchanged. */
  lemma {:induction false} SplitSqueeze(s: string)
    ensures Squeeze(SplitContractions(s)) == Squeeze(s)
  {
    if |s| > 0 {
      if ContractionAt(s, 0) {
        var rest := SplitContractions(s[3..]);
        SplitSqueeze(s[3..]);
        var head := [s[0], ' ', '\'', s[2]];
        SqueezeContraction(s[0], s[2]);
        FilterAppend(head, rest, NotWhitespace);
        assert s == s[..3] + s[3..];
        assert s[..3] == [s[0], '\'', s[2]];
        FilterAppend(s[..3], s[3..], NotWhitespace);
      } else {
        SplitSqueeze(s[1..]);
        assert s == [s[0]] + s[1..];
        FilterCons(s[0], SplitContractions(s[1..]), NotWhitespace);
        FilterCons(s[0], s[1..], NotWhitespace);
      }
    }
  }

  lemma SqueezeContraction(a: char, b: char)
    requires IsLowerLetter(a) && IsLowerLetter(b)
    ensures Squeeze([a, ' ', '\'', b]) == [a, '\'', b]
    ensures Squeeze([a, '\'', b]) == [a, '\'', b]
  {
    FilterCons(b, [], NotWhitespace);
    FilterCons('\'', [b], NotWhitespace);
    FilterCons(' ', ['\'', b], NotWhitespace);
    FilterCons(a, [' ', '\'', b], NotWhitespace);
    FilterCons(a, ['\'', b], NotWhitespace);
    assert [a, ' ', '\'', b] == [a] + [' ', '\'', b];
    assert [a, '\'', b] == [a] + ['\'', b];
    assert [' ', '\'', b] == [' '] + ['\'', b];
    assert ['\'', b] == ['\''] + [b];
    assert [b] == [b] + [];
  }

  /** Splitting keeps the text well spaced. */
  lemma {:induction false} SplitSpacing(s: string)
    requires SpaceFollowed(s)
    ensures SpaceFollowed(SplitContractions(s))
  {
    if |s| > 0 {
      if ContractionAt(s, 0) {
        var rest := SplitContractions(s[3..]);
        SuffixSpaceFollowed(s, 3);
        SplitSpacing(s[3..]);
        assert [s[0], ' ', '\'', s[2]] + rest == [s[0]] + ([' '] + (['\''] + ([s[2]] + rest)));
        ConsOther(s[2], rest);
        ConsOther('\'', [s[2]] + rest);
        ConsSpace(['\''] + ([s[2]] + rest));
        ConsOther(s[0], [' '] + (['\''] + ([s[2]] + rest)));
      } else {
        var rest := SplitContractions(s[1..]);
        SuffixSpaceFollowed(s, 1);
        SplitSpacing(s[1..]);
        SplitChars(s[1..]);
        if s[0] == ' ' {
          ConsSpace(rest);
        } else {
          ConsOther(s[0], rest);
        }
      }
    }
  }

  lemma SuffixSpaceFollowed(s: string, k: nat)
    requires SpaceFollowed(s) && k <= |s|
    ensures SpaceFollowed(s[k..])
  {
    var t := s[k..];
    forall i | 0 <= i < |t| && t[i] == ' '
      ensures i + 1 < |t| && !IsWhitespace(t[i + 1])
    {
      assert s[k + i] == ' ';
    }
  }

  /** The common tail of both clean methods: lower-case, retain the kept
      characters, trim and collapse whitespace, split contractions. */
  function CleanWith(s: string, kept: char -> bool, visible: char -> bool): (r: string)
    requires forall c :: visible(c) == (kept(c) && !IsWhitespace(c))
    ensures |r| > 0 ==> r[0] != ' ' && r[|r| - 1] != ' '
    ensures forall i :: 0 <= i < |r| - 1 ==> !(r[i] == ' ' && r[i + 1] == ' ')
    ensures forall c :: c in r ==> visible(c) || c == ' '
    ensures Squeeze(r) == Filter(Lower(s), visible)
    ensures r == SpacedFrom(Unwords(Words(Filter(Lower(s), kept))), 0)
  {
    var filtered := Filter(Lower(s), kept);
    var collapsed := TrimAndCollapse(filtered);
    TrimAndCollapseJoinsWords(filtered);
    SplitContractionsSpacesMatches(collapsed);
    FilterMembership(Lower(s), kept);
    CollapseShape(filtered, false, false);
    SplitChars(collapsed);
    SplitSqueeze(collapsed);
    SplitSpacing(collapsed);
    FilterFilter(Lower(s), kept, NotWhitespace, visible);
    var r := SplitContractions(collapsed);
    assert SpaceFollowed(r);
    assert |r| > 0 ==> r[|r| - 1] != ' ';
    r
  }

  /** in.aesh.segment.Utils.clean: on ASCII text the result holds only
      lower-case letters, spaces, '$' and apostrophes; it is well spaced; and
      its non-space characters are the retained characters of the lower-cased
      input in order, so capitals are lower-cased, not dropped. */
  function Clean(s: string): (r: string)
    requires IsAscii(s)
    ensures |r| > 0 ==> r[0] != ' ' && r[|r| - 1] != ' '
    ensures forall i :: 0 <= i < |r| - 1 ==> !(r[i] == ' ' && r[i + 1] == ' ')
    ensures forall c :: c in r ==> IsLowerLetter(c) || c == ' ' || c == '$' || c == '\''
    ensures Squeeze(r) == Filter(Lower(s), VisibleForUtils)
    ensures r == SpacedFrom(Unwords(Words(Filter(Lower(s), KeptByUtils))), 0)
  {
    CleanWith(s, KeptByUtils, VisibleForUtils)
  }

  /** BayesSegWrapper.clean: as Utils.clean, but digits and backquotes are
      retained too. */
  function CleanForWrapper(s: string): (r: string)
    requires IsAscii(s)
    ensures |r| > 0 ==> r[0] != ' ' && r[|r| - 1] != ' '
    ensures forall i :: 0 <= i < |r| - 1 ==> !(r[i] == ' ' && r[i + 1] == ' ')
    ensures forall c :: c in r ==> IsLowerLetter(c) || Decimal.IsDigit(c) || c == ' ' || c == '\'' || c == '`' || c == '$'
    ensures Squeeze(r) == Filter(Lower(s), VisibleForWrapper)
    ensures r == SpacedFrom(Unwords(Words(Filter(Lower(s), KeptByWrapper))), 0)
  {
    CleanWith(s, KeptByWrapper, VisibleForWrapper)
  }

  /** A possessive is split off and the capital lower-cased. */
  lemma CleanSplitsPossessive()
    ensures Clean("Sam's") == "sam 's"
  {
    assert Lower("Sam's") == "sam's";
    FilterKeepsAll("sam's", KeptByUtils);
    CollapseLetters("sam's");
    SplitPossessive();
  }

  lemma SplitPossessive()
    ensures SplitContractions("sam's") == "sam 's"
  {
    assert SplitContractions("s") == "s";
    assert ContractionAt("m's", 0);
    assert SplitContractions("m's") == "m 's";
    assert !ContractionAt("am's", 0);
    assert SplitContractions("am's") == "am 's";
  }

  /** Text without whitespace is left alone by trimming and collapsing. */
  lemma {:induction false} CollapseLetters(s: string)
    requires forall i :: 0 <= i < |s| ==> !IsWhitespace(s[i])
    ensures Collapse(s, true, false) == s && TrimAndCollapse(s) == s
  {
    if |s| > 0 {
      CollapseLetters(s[1..]);
      assert s == [s[0]] + s[1..];
    }
  }

  /** In the wrapper a digit survives and a run of whitespace becomes one
      space. */
  lemma CleanForWrapperKeepsDigits()
    ensures CleanForWrapper("Go\t 4") == "go 4"
  {
    assert Lower("Go\t 4") == "go\t 4";
    FilterKeepsAll("go\t 4", KeptByWrapper);
    CollapseRun();
    SplitNothing();
  }

  lemma CollapseRun()
    ensures TrimAndCollapse("go\t 4") == "go 4"
  {
    assert Collapse("4", true, true) == " 4";
    assert Collapse(" 4", true, true) == " 4";
    assert Collapse("\t 4", true, false) == " 4";
    assert Collapse("o\t 4", true, false) == "o 4";
  }

  lemma SplitNothing()
    ensures SplitContractions("go 4") == "go 4"
  {
    assert SplitContractions("4") == "4";
    assert SplitContractions(" 4") == " 4";
    assert SplitContractions("o 4") == "o 4";
  }

  /** Utils.removeStopwords, and BayesSegWrapper.removeStopwords with its
      stop list field: the words not on the stop list, in order. */
  function RemoveStopwords(words: seq<string>, stopwords: seq<string>): (r: seq<string>)
    ensures forall w :: w in r <==> w in words && w !in stopwords
  {
    FilterMembership(words, w => w !in stopwords);
    Filter(words, w => w !in stopwords)
  }

  /** The filter keeps order: it works piece by piece, keeping a single word
      exactly when it is not a stopword. */
  lemma RemoveStopwordsKeepsOrder(a: seq<string>, b: seq<string>, w: string, stopwords: seq<string>)
    ensures RemoveStopwords(a + b, stopwords) == RemoveStopwords(a, stopwords) + RemoveStopwords(b, stopwords)
    ensures RemoveStopwords([w], stopwords) == if w in stopwords then [] else [w]
  {
    FilterAppend(a, b, w => w !in stopwords);
  }

  /** An empty stop list keeps everything; a second pass removes nothing more. */
  lemma RemoveStopwordsIdentityAndIdempotent(words: seq<string>, stopwords: seq<string>)
    ensures RemoveStopwords(words, []) == words
    ensures RemoveStopwords(RemoveStopwords(words, stopwords), stopwords) == RemoveStopwords(words, stopwords)
  {
    FilterKeepsAll(words, w => w !in []);
    var once := RemoveStopwords(words, stopwords);
    forall i | 0 <= i < |once|
      ensures once[i] !in stopwords
    {
      assert once[i] in once;
    }
    FilterKeepsAll(once, w => w !in stopwords);
  }
}
