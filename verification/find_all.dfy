/**
 * `find_all_pattern`: a left-to-right scan for non-overlapping matches that
 * counts them and paints the style mask, then resets the mask.
 */
module HighlightAll {
  import opened TextBuffer
  import opened EditorState

  /** A mask of `n` plain markers. */
  function PlainMask(n: nat): (m: seq<char>)
    ensures |m| == n
    ensures forall i :: 0 <= i < n ==> m[i] == Plain
  {
    seq(n, _ => Plain)
  }

  /** Offset `i` lies in one of the ranges `[ps[k], ps[k] + len)`. */
  ghost predicate Covered(ps: seq<int>, len: nat, i: int)
  {
    exists k :: 0 <= k < |ps| && ps[k] <= i < ps[k] + len
  }

  /**
   * The start offsets the scan visits from `from` on: the leftmost match,
   * then the leftmost match after its end, and so on.
   */
  function AllMatches(eq: CharEq, text: seq<char>, needle: seq<char>, from: int): (ps: seq<int>)
    requires |needle| > 0
    decreases |text| + 1 - from
  {
    match SearchForward(eq, text, needle, from)
    case None => []
    case Some(p) => [p] + AllMatches(eq, text, needle, p + |needle|)
  }

  /** Every offset in `ps` is a match at or after `from`. */
  ghost predicate MatchesFrom(eq: CharEq, text: seq<char>, needle: seq<char>, from: int, ps: seq<int>)
  {
    forall k :: 0 <= k < |ps| ==> from <= ps[k] && MatchAt(eq, text, needle, ps[k])
  }

  /** The ranges `[ps[k], ps[k] + len)` are ascending and pairwise disjoint. */
  ghost predicate Disjoint(ps: seq<int>, len: nat)
  {
    forall j, k :: 0 <= j < k < |ps| ==> ps[j] + len <= ps[k]
  }

  /**
   * Every offset the scan finds is a match at or after `from`, and the
   * found ranges are ascending and do not overlap.
   */
  lemma {:induction false} AllMatchesSound(eq: CharEq, text: seq<char>, needle: seq<char>, from: int)
    requires |needle| > 0
    ensures MatchesFrom(eq, text, needle, from, AllMatches(eq, text, needle, from))
    ensures Disjoint(AllMatches(eq, text, needle, from), |needle|)
    decreases |text| + 1 - from
  {
    match SearchForward(eq, text, needle, from)
    case None =>
    case Some(p) =>
      var n := |needle|;
      AllMatchesSound(eq, text, needle, p + n);
      var rest := AllMatches(eq, text, needle, p + n);
      var ps := [p] + rest;
      assert AllMatches(eq, text, needle, from) == ps;
      forall k | 0 <= k < |ps|
        ensures from <= ps[k] && MatchAt(eq, text, needle, ps[k])
      {
        if k > 0 {
          assert ps[k] == rest[k - 1];
        }
      }
      forall j, k | 0 <= j < k < |ps|
        ensures ps[j] + n <= ps[k]
      {
        assert ps[k] == rest[k - 1];
        if j > 0 {
          assert ps[j] == rest[j - 1];
        }
      }
  }

  /** `done` followed by the scan from `pos` on is the whole scan `all`. */
  ghost predicate ScannedUpTo(eq: CharEq, text: seq<char>, needle: seq<char>, pos: int, done: seq<int>, all: seq<int>)
    requires |needle| > 0
  {
    done + AllMatches(eq, text, needle, pos) == all
  }

  /** Appending the found offset keeps `done` followed by the rest of the scan equal to the whole scan. */
  lemma ScanAdvance(eq: CharEq, text: seq<char>, needle: seq<char>, pos: int, p: int, done: seq<int>, all: seq<int>,
                    pos': int, done': seq<int>)
    requires |needle| > 0
    requires ScannedUpTo(eq, text, needle, pos, done, all)
    requires SearchForward(eq, text, needle, pos) == Some(p)
    requires pos' == p + |needle| && done' == done + [p]
    ensures ScannedUpTo(eq, text, needle, pos', done', all)
  {
    AllMatchesUnfold(eq, text, needle, pos, p);
    assert done' + AllMatches(eq, text, needle, pos') == done + ([p] + AllMatches(eq, text, needle, pos'));
  }

  /** One step of the scan: the first match, then the scan after its end. */
  lemma AllMatchesUnfold(eq: CharEq, text: seq<char>, needle: seq<char>, from: int, p: int)
    requires |needle| > 0
    requires SearchForward(eq, text, needle, from) == Some(p)
    ensures AllMatches(eq, text, needle, from) == [p] + AllMatches(eq, text, needle, p + |needle|)
  {
  }

  lemma CoveredCons(p: int, rest: seq<int>, len: nat, i: int)
    ensures Covered([p] + rest, len, i) <==> (p <= i < p + len || Covered(rest, len, i))
  {
    var ps := [p] + rest;
    if p <= i < p + len {
      assert ps[0] == p;
    }
    if Covered(rest, len, i) {
      var k :| 0 <= k < |rest| && rest[k] <= i < rest[k] + len;
      assert ps[k + 1] == rest[k];
    }
    if Covered(ps, len, i) {
      var k :| 0 <= k < |ps| && ps[k] <= i < ps[k] + len;
      if k > 0 {
        assert rest[k - 1] == ps[k];
      }
    }
  }

  lemma CoveredSnoc(ps: seq<int>, p: int, len: nat, i: int)
    ensures Covered(ps + [p], len, i) <==> (Covered(ps, len, i) || p <= i < p + len)
  {
    var qs := ps + [p];
    if Covered(ps, len, i) {
      var k :| 0 <= k < |ps| && ps[k] <= i < ps[k] + len;
      assert qs[k] == ps[k];
    }
    if p <= i < p + len {
      assert qs[|ps|] == p;
    }
  }

  /**
   * The scan misses no match: every match at or after `from` starts inside
   * one of the ranges the scan found (it is either found itself or overlaps
   * a found match to its left).
   */
  lemma {:induction false} AllMatchesComplete(eq: CharEq, text: seq<char>, needle: seq<char>, from: int, q: int)
    requires |needle| > 0
    requires from <= q && MatchAt(eq, text, needle, q)
    ensures Covered(AllMatches(eq, text, needle, from), |needle|, q)
    decreases |text| + 1 - from
  {
    match SearchForward(eq, text, needle, from)
    case None =>
      assert false;
    case Some(p) =>
      var rest := AllMatches(eq, text, needle, p + |needle|);
      assert AllMatches(eq, text, needle, from) == [p] + rest;
      if q < p + |needle| {
        assert p <= q;
      } else {
        AllMatchesComplete(eq, text, needle, p + |needle|, q);
      }
      CoveredCons(p, rest, |needle|, q);
  }

  /**
   * `mask` is the style mask of the ranges `[ps[k], ps[k] + len)`: every
   * marker is plain or highlighted, and highlighted exactly inside a range.
   */
  ghost predicate Paints(mask: seq<char>, ps: seq<int>, len: nat)
  {
    forall i :: 0 <= i < |mask| ==>
      && (mask[i] == Plain || mask[i] == Highlight)
      && (mask[i] == Highlight <==> Covered(ps, len, i))
  }

  /** Painting one more range extends the painted ranges by that range. */
  lemma PaintsExtend(mask: seq<char>, ps: seq<int>, p: int, len: nat, mask': seq<char>)
    requires Paints(mask, ps, len)
    requires |mask'| == |mask|
    requires forall j :: 0 <= j < |mask| ==> mask'[j] == if p <= j < p + len then Highlight else mask[j]
    ensures Paints(mask', ps + [p], len)
  {
    forall j | 0 <= j < |mask'|
      ensures mask'[j] == Highlight <==> Covered(ps + [p], len, j)
    {
      CoveredSnoc(ps, p, len, j);
    }
  }

  /** A mask painted with no range at all is the plain mask. */
  lemma PaintsNoneIsPlain(mask: seq<char>, len: nat)
    requires Paints(mask, [], len)
    ensures mask == PlainMask(|mask|)
  {
    forall i | 0 <= i < |mask|
      ensures mask[i] == Plain
    {
      assert !Covered([], len, i);
    }
  }

  /** The plain mask is the mask painted with no range. */
  lemma PlainPaintsNone(n: nat, len: nat)
    ensures Paints(PlainMask(n), [], len)
  {
    forall i | 0 <= i < n
      ensures !Covered([], len, i)
    {
    }
  }

  /** The inner highlight loop: mark `[p, p + len)` one marker at a time. */
  method HighlightRange(style: seq<char>, p: int, len: nat) returns (painted: seq<char>)
    requires 0 <= p && p + len <= |style|
    ensures |painted| == |style|
    ensures forall j :: 0 <= j < |style| ==> painted[j] == if p <= j < p + len then Highlight else style[j]
  {
    painted := style;
    var i := p;
    while i < p + len
      invariant p <= i <= p + len
      invariant |painted| == |style|
      invariant forall j :: 0 <= j < |style| ==> painted[j] == if p <= j < i then Highlight else style[j]
    {
      painted := painted[i := Highlight];
      i := i + 1;
    }
  }

  /** Highlight one more found range, extending the painted ranges by it. */
  method PaintMatch(style: seq<char>, ghost done: seq<int>, p: int, len: nat) returns (painted: seq<char>)
    requires Paints(style, done, len)
    requires 0 <= p && p + len <= |style|
    ensures |painted| == |style|
    ensures Paints(painted, done + [p], len)
  {
    painted := HighlightRange(style, p, len);
    PaintsExtend(style, done, p, len, painted);
  }

  /**
   * The state of the scan loop of `find_all_pattern` between iterations:
   * `done` are the offsets found so far, in order, and `all` is the whole
   * scan; the count is the number found and the mask paints exactly them.
   */
  ghost predicate ScanInv(eq: CharEq, text: seq<char>, needle: seq<char>, pos: int, found: Option<int>,
                          totalNumber: nat, style: seq<char>, done: seq<int>, all: seq<int>)
  {
    && |needle| > 0
    && 0 <= pos <= |text|
    && found == SearchForward(eq, text, needle, pos)
    && ScannedUpTo(eq, text, needle, pos, done, all)
    && totalNumber == |done|
    && |style| == |text|
    && Paints(style, done, |needle|)
  }

  /** One iteration of the scan loop: count the match, highlight it, search on after it. */
  method ScanStep(eq: CharEq, text: seq<char>, needle: seq<char>, pos: int, found: Option<int>,
                  totalNumber: nat, style: seq<char>, ghost done: seq<int>, ghost all: seq<int>)
    returns (pos': int, found': Option<int>, totalNumber': nat, style': seq<char>, ghost done': seq<int>)
    requires ScanInv(eq, text, needle, pos, found, totalNumber, style, done, all)
    requires found.Some?
    ensures ScanInv(eq, text, needle, pos', found', totalNumber', style', done', all)
    ensures pos < pos'
  {
    var p := found.value;
    assert FirstMatchFrom(eq, text, needle, pos, p);
    totalNumber' := totalNumber + 1;
    style' := PaintMatch(style, done, p, |needle|);
    ScanAdvance(eq, text, needle, pos, p, done, all, p + |needle|, done + [p]);
    done' := done + [p];
    pos' := p + |needle|;
    found' := SearchForward(eq, text, needle, pos');
  }

  /**
   * The scan loop of `find_all_pattern`: starting from an all-plain mask,
   * highlight every match the scan finds and count them.
   */
  method ScanAndPaint(eq: CharEq, text: seq<char>, needle: seq<char>) returns (totalNumber: nat, style: seq<char>)
    requires |needle| > 0
    ensures totalNumber == |AllMatches(eq, text, needle, 0)|
    ensures |style| == |text|
    ensures Paints(style, AllMatches(eq, text, needle, 0), |needle|)
  {
    var pos := 0;
    totalNumber := 0;
    ghost var done: seq<int> := [];
    ghost var all := AllMatches(eq, text, needle, pos);

    style := PlainMask(|text|);
    PlainPaintsNone(|text|, |needle|);
    var found := SearchForward(eq, text, needle, pos);
    assert done + all == all;

    while found.Some?
      invariant ScanInv(eq, text, needle, pos, found, totalNumber, style, done, all)
      decreases |text| - pos
    {
      pos, found, totalNumber, style, done := ScanStep(eq, text, needle, pos, found, totalNumber, style, done, all);
    }

    assert AllMatches(eq, text, needle, pos) == [];
    assert done == all;
  }

  /**
   * `find_all_pattern(needle, self)`. Returns the step (final state and the
   * message box) and the mask as it was painted when the scan ended.
   */
  method FindAll(eq: CharEq, ed: Editor, needle: seq<char>) returns (r: Step, painted: seq<char>)
    requires |needle| > 0
    ensures r.ed == ed.(style := PlainMask(|ed.text|))
    ensures |painted| == |ed.text|
    ensures Paints(painted, AllMatches(eq, ed.text, needle, 0), |needle|)
    ensures var count := |AllMatches(eq, ed.text, needle, 0)|;
            r.notices == if count == 0 then [NotFound(needle)] else [FoundCount(needle, count)]
  {
    var totalNumber;
    totalNumber, painted := ScanAndPaint(eq, ed.text, needle);
    if totalNumber == 0 {
      assert AllMatches(eq, ed.text, needle, 0) == [];
      PaintsNoneIsPlain(painted, |needle|);
      r := Step(ed.(style := painted), [NotFound(needle)]);
    } else {
      r := Step(ed.(style := PlainMask(|ed.text|)), [FoundCount(needle, totalNumber)]);
    }
  }

  /** A second find-all right after the first leaves the same state and reports the same result. */
  method FindAllIdempotent(eq: CharEq, ed: Editor, needle: seq<char>) returns (first: Step, second: Step)
    requires |needle| > 0
    ensures second == first
    ensures first.ed.text == ed.text
  {
    var painted;
    first, painted := FindAll(eq, ed, needle);
    second, painted := FindAll(eq, first.ed, needle);
  }
}
