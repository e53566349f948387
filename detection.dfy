/** `find_checkboxes`, from the point where OpenCV has produced the
    contours: each contour arrives as the vertex count of its polygon
    approximation and the bounding rectangle of that polygon, in contour
    order, together with the binary mask the contours came from. */
module CheckboxDetection {
  import opened Text

  /** An axis-aligned bounding rectangle `(x, y, w, h)`. */
  datatype Box = Box(x: int, y: int, w: int, h: int)

  /** What `cv2.approxPolyDP` and `cv2.boundingRect` report for a contour. */
  datatype Contour = Contour(corners: nat, box: Box)

  /** One entry of `checkbox_results`: `(x, y, w, h, mark)`. */
  datatype Checkbox = Checkbox(x: int, y: int, w: int, h: int, mark: String)

  /** The binary mask, row by row (`thresh[row][column]`). */
  type Mask = seq<seq<int>>

  const MinCheckboxSize := 15
  const MaxCheckboxSize := 40
  const DedupTolerance := 5
  const CheckedMark: String := "[X]"
  const UncheckedMark: String := "[ ]"

  function Abs(n: int): nat { if n < 0 then -n else n }

  function BoxOf(c: Checkbox): Box { Box(c.x, c.y, c.w, c.h) }

  function Boxes(cs: seq<Checkbox>): (r: seq<Box>)
    ensures |r| == |cs| && forall k :: 0 <= k < |cs| ==> r[k] == BoxOf(cs[k])
  {
    seq(|cs|, k requires 0 <= k < |cs| => BoxOf(cs[k]))
  }

  /** The size and aspect filter, with the source's real-valued
      `0.8 < w/h < 1.2` computed as `4h < 5w < 6h` (AspectExact shows the two agree). */
  predicate SizeOk(b: Box)
    ensures SizeOk(b) <==>
      (MinCheckboxSize < b.w < MaxCheckboxSize && MinCheckboxSize < b.h < MaxCheckboxSize
       && 0.8 < b.w as real / b.h as real < 1.2)
  {
    var sides := MinCheckboxSize < b.w < MaxCheckboxSize && MinCheckboxSize < b.h < MaxCheckboxSize;
    var aspect := 4 * b.h < 5 * b.w && 5 * b.w < 6 * b.h;
    if b.h > 0 then AspectExact(b.w, b.h); sides && aspect else sides && aspect
  }

  /** A contour is a candidate when it is a quadrilateral passing the filter. */
  predicate Candidate(c: Contour) {
    c.corners == 4 && SizeOk(c.box)
  }

  /** `abs(px - x) < 5 and abs(py - y) < 5`. */
  predicate Near(p: Box, b: Box) {
    Abs(p.x - b.x) < DedupTolerance && Abs(p.y - b.y) < DedupTolerance
  }

  /** `any(...)` over the boxes accepted so far. */
  predicate NearAny(b: Box, accepted: seq<Box>) {
    exists k :: 0 <= k < |accepted| && Near(accepted[k], b)
  }

  /** No two entries lie within the dedup tolerance of each other. */
  predicate Separated(cs: seq<Checkbox>) {
    forall j, k :: 0 <= j < k < |cs| ==> !Near(BoxOf(cs[j]), BoxOf(cs[k]))
  }

  // ------------------------------------------------------------ fill test

  /** `thresh[r][c]`, where a pixel outside the mask reads as 0: numpy's
      slice `thresh[y:y+h, x:x+w]` stops at the mask's edge. */
  function Pixel(mask: Mask, r: int, c: int): int {
    if 0 <= r < |mask| && 0 <= c < |mask[r]| then mask[r][c] else 0
  }

  /** Non-zero pixels of row `r` in columns `x .. x+w-1`. */
  function RowNonZero(mask: Mask, r: int, x: int, w: int): (n: nat)
    ensures n <= if w < 0 then 0 else w
    decreases w
  {
    if w <= 0 then 0
    else RowNonZero(mask, r, x, w - 1) + (if Pixel(mask, r, x + w - 1) != 0 then 1 else 0)
  }

  /** A side length, with an empty slice for a negative one. */
  function Side(n: int): nat { if n < 0 then 0 else n }

  /** `cv2.countNonZero(thresh[y:y+h, x:x+w])`: never more than the window's area. */
  function CountNonZero(mask: Mask, b: Box): (n: nat)
    ensures n <= Side(b.h) * Side(b.w)
    decreases b.h
  {
    if b.h <= 0 then 0
    else
      var above := CountNonZero(mask, Box(b.x, b.y, b.w, b.h - 1));
      assert above + Side(b.w) <= b.h * Side(b.w) by {
        assert (b.h - 1) * Side(b.w) + Side(b.w) == b.h * Side(b.w);
      }
      above + RowNonZero(mask, b.y + b.h - 1, b.x, b.w)
  }

  /** The source's `countNonZero(roi) / (w*h) > 0.4`, as
      `5 * count > 2 * w * h` (see FillTestExact). */
  function MarkFor(count: int, w: int, h: int): (r: String)
    ensures r == CheckedMark || r == UncheckedMark
    ensures w > 0 && h > 0 ==> (r == CheckedMark <==> count as real / (w * h) as real > 0.4)
  {
    MarksDiffer();
    if w > 0 && h > 0 then
      QuotientBounds(0.4, count as real, (w * h) as real);
      if 5 * count > 2 * (w * h) then CheckedMark else UncheckedMark
    else
      if 5 * count > 2 * (w * h) then CheckedMark else UncheckedMark
  }

  function Classify(mask: Mask, b: Box): (c: Checkbox)
    ensures BoxOf(c) == b
  {
    Checkbox(b.x, b.y, b.w, b.h, MarkFor(CountNonZero(mask, b), b.w, b.h))
  }

  // ------------------------------------------------- the specification

  /** What `find_checkboxes` returns for `contours`: each contour in turn is
      kept when it is a candidate not near any box kept before it. */
  function Detect(contours: seq<Contour>, mask: Mask): (r: seq<Checkbox>)
    ensures forall k :: 0 <= k < |r| ==> SizeOk(BoxOf(r[k]))
    ensures forall k :: 0 <= k < |r| ==> r[k].mark == MarkFor(CountNonZero(mask, BoxOf(r[k])), r[k].w, r[k].h)
    ensures Separated(r)
    ensures |r| <= |contours|
    decreases |contours|
  {
    if contours == [] then []
    else
      var prev := Detect(contours[..|contours| - 1], mask);
      var c := contours[|contours| - 1];
      if Candidate(c) && !NearAny(c.box, Boxes(prev)) then
        var next := prev + [Classify(mask, c.box)];
        assert forall j :: 0 <= j < |prev| ==> !Near(BoxOf(next[j]), BoxOf(next[|prev|]));
        next
      else prev
  }

  /** The loop of `find_checkboxes`: `processed_boxes` and
      `checkbox_results` grow together, one entry per kept candidate. */
  method FindCheckboxes(contours: seq<Contour>, mask: Mask) returns (results: seq<Checkbox>)
    ensures results == Detect(contours, mask)
    ensures forall k :: 0 <= k < |results| ==> SizeOk(BoxOf(results[k]))
    ensures Separated(results)
  {
    var processed: seq<Box> := [];
    results := [];
    var i := 0;
    while i < |contours|
      invariant 0 <= i <= |contours|
      invariant results == Detect(contours[..i], mask)
      invariant processed == Boxes(results)
    {
      DetectStep(contours, mask, i);
      ghost var before := results;
      var c := contours[i];
      if c.corners == 4 {
        var b := c.box;
        if MinCheckboxSize < b.w < MaxCheckboxSize && MinCheckboxSize < b.h < MaxCheckboxSize
          && 4 * b.h < 5 * b.w && 5 * b.w < 6 * b.h
        {
          var alreadyProcessed := exists k :: 0 <= k < |processed| && Near(processed[k], b);
          assert alreadyProcessed == NearAny(b, Boxes(before));
          if !alreadyProcessed {
            processed := processed + [b];
            var filled := CountNonZero(mask, b);
            if 5 * filled > 2 * (b.w * b.h) {
              results := results + [Checkbox(b.x, b.y, b.w, b.h, CheckedMark)];
            } else {
              results := results + [Checkbox(b.x, b.y, b.w, b.h, UncheckedMark)];
            }
            assert results == before + [Classify(mask, b)];
            BoxesSnoc(before, Classify(mask, b));
          }
        }
      }
      i := i + 1;
    }
    assert contours[..i] == contours;
  }

  /** One more contour: Detect of the longer prefix, in terms of the shorter. */
  lemma DetectStep(contours: seq<Contour>, mask: Mask, i: nat)
    requires i < |contours|
    ensures Detect(contours[..i + 1], mask) ==
      if Candidate(contours[i]) && !NearAny(contours[i].box, Boxes(Detect(contours[..i], mask)))
      then Detect(contours[..i], mask) + [Classify(mask, contours[i].box)]
      else Detect(contours[..i], mask)
  {
    assert contours[..i + 1][..i] == contours[..i];
  }

  lemma BoxesSnoc(cs: seq<Checkbox>, c: Checkbox)
    ensures Boxes(cs + [c]) == Boxes(cs) + [BoxOf(c)]
  {
  }

  // ------------------------------------------------------ order, lockstep

  /** Contour `i` lies within the dedup tolerance of a contour kept at an
      earlier position of `idx`. */
  predicate Blocked(contours: seq<Contour>, idx: seq<nat>, i: nat)
    requires i < |contours| && forall k :: 0 <= k < |idx| ==> idx[k] < |contours|
  {
    exists k :: 0 <= k < |idx| && idx[k] < i && Near(contours[idx[k]].box, contours[i].box)
  }

  /** The positions of the kept contours, in increasing order: the result
      is exactly those contours, classified, in contour order, and every
      candidate left out is within the tolerance of an earlier kept one. */
  lemma {:induction false} DetectKeepsOrder(contours: seq<Contour>, mask: Mask) returns (idx: seq<nat>)
    ensures |idx| == |Detect(contours, mask)|
    ensures forall k :: 0 <= k < |idx| ==> idx[k] < |contours|
    ensures forall j, k :: 0 <= j < k < |idx| ==> idx[j] < idx[k]
    ensures forall k :: 0 <= k < |idx| ==>
      Detect(contours, mask)[k] == Classify(mask, contours[idx[k]].box) && Candidate(contours[idx[k]])
    ensures forall i :: 0 <= i < |contours| && Candidate(contours[i]) && i !in idx ==> Blocked(contours, idx, i)
    decreases |contours|
  {
    if contours == [] {
      idx := [];
    } else {
      var n := |contours| - 1;
      var front := contours[..n];
      var before := DetectKeepsOrder(front, mask);
      DetectStep(contours, mask, n);
      assert contours[..n + 1] == contours;
      var c := contours[n];
      var kept := Boxes(Detect(front, mask));
      if Candidate(c) && !NearAny(c.box, kept) {
        idx := before + [n];
      } else {
        idx := before;
        if Candidate(c) {
          NearKeptBlocks(contours, front, mask, before);
        }
      }
      KeptStep(contours, front, mask, Detect(front, mask), Detect(contours, mask), before, idx);
      EarlierStillBlocked(contours, front, before, idx);
    }
  }

  /** One induction step of DetectKeepsOrder's order and lockstep
      properties. */
  lemma KeptStep(contours: seq<Contour>, front: seq<Contour>, mask: Mask,
                 r0: seq<Checkbox>, r: seq<Checkbox>, before: seq<nat>, idx: seq<nat>)
    requires |contours| > 0 && front == contours[..|contours| - 1]
    requires |before| == |r0|
    requires forall k :: 0 <= k < |before| ==> before[k] < |front|
    requires forall j, k :: 0 <= j < k < |before| ==> before[j] < before[k]
    requires forall k :: 0 <= k < |before| ==>
      r0[k] == Classify(mask, front[before[k]].box) && Candidate(front[before[k]])
    requires (idx == before + [|contours| - 1] && r == r0 + [Classify(mask, contours[|contours| - 1].box)]
              && Candidate(contours[|contours| - 1]))
          || (idx == before && r == r0)
    ensures |idx| == |r|
    ensures forall k :: 0 <= k < |idx| ==> idx[k] < |contours|
    ensures forall j, k :: 0 <= j < k < |idx| ==> idx[j] < idx[k]
    ensures forall k :: 0 <= k < |idx| ==>
      r[k] == Classify(mask, contours[idx[k]].box) && Candidate(contours[idx[k]])
  {
    assert forall k :: 0 <= k < |front| ==> front[k] == contours[k];
  }

  /** A candidate near a box kept from `front` is blocked by that box's
      contour. */
  lemma NearKeptBlocks(contours: seq<Contour>, front: seq<Contour>, mask: Mask, before: seq<nat>)
    requires |contours| > 0 && front == contours[..|contours| - 1]
    requires |before| == |Detect(front, mask)|
    requires forall k :: 0 <= k < |before| ==> before[k] < |front| && Detect(front, mask)[k] == Classify(mask, front[before[k]].box)
    requires NearAny(contours[|contours| - 1].box, Boxes(Detect(front, mask)))
    ensures Blocked(contours, before, |contours| - 1)
  {
    var kept := Boxes(Detect(front, mask));
    var k :| 0 <= k < |kept| && Near(kept[k], contours[|contours| - 1].box);
    assert kept[k] == BoxOf(Classify(mask, front[before[k]].box)) == front[before[k]].box;
    assert front[before[k]] == contours[before[k]];
  }

  /** A candidate of `front` blocked there is still blocked after one more
      contour, whether or not that contour is kept. */
  lemma EarlierStillBlocked(contours: seq<Contour>, front: seq<Contour>, before: seq<nat>, idx: seq<nat>)
    requires |contours| > 0 && front == contours[..|contours| - 1]
    requires forall k :: 0 <= k < |before| ==> before[k] < |front|
    requires forall i :: 0 <= i < |front| && Candidate(front[i]) && i !in before ==> Blocked(front, before, i)
    requires idx == before || idx == before + [|contours| - 1]
    requires idx == before ==> (Candidate(contours[|contours| - 1]) ==> Blocked(contours, before, |contours| - 1))
    ensures forall k :: 0 <= k < |idx| ==> idx[k] < |contours|
    ensures forall i :: 0 <= i < |contours| && Candidate(contours[i]) && i !in idx ==> Blocked(contours, idx, i)
  {
    forall i | 0 <= i < |contours| && Candidate(contours[i]) && i !in idx
      ensures Blocked(contours, idx, i)
    {
      if i < |front| {
        assert front[i] == contours[i];
        assert i !in before;
        var k :| 0 <= k < |before| && before[k] < i && Near(front[before[k]].box, front[i].box);
        assert idx[k] == before[k];
        assert front[before[k]] == contours[before[k]];
      }
    }
  }

  /** Filtering out every non-candidate first gives the same result: a
      contour that fails the shape or size test never blocks a later one. */
  lemma {:induction false} RejectedNeverBlock(contours: seq<Contour>, mask: Mask)
    ensures Detect(contours, mask) == Detect(Candidates(contours), mask)
    decreases |contours|
  {
    if contours != [] {
      var n := |contours| - 1;
      RejectedNeverBlock(contours[..n], mask);
      var c := contours[n];
      var front := Candidates(contours[..n]);
      var prev := Detect(contours[..n], mask);
      assert prev == Detect(front, mask);
      if Candidate(c) {
        var f := Candidates(contours);
        assert f == front + [c];
        assert f[..|f| - 1] == front;
        assert Detect(f, mask) == if !NearAny(c.box, Boxes(prev)) then prev + [Classify(mask, c.box)] else prev;
      } else {
        assert Candidates(contours) == front;
      }
    }
  }

  /** The candidates among `contours`, in order. */
  function Candidates(contours: seq<Contour>): (r: seq<Contour>)
    ensures forall k :: 0 <= k < |r| ==> Candidate(r[k])
    ensures |r| <= |contours|
    decreases |contours|
  {
    if contours == [] then []
    else
      var n := |contours| - 1;
      Candidates(contours[..n]) + (if Candidate(contours[n]) then [contours[n]] else [])
  }

  /** Of two candidates within 5 pixels of each other, the first is kept
      and the second dropped; farther apart, both are kept. */
  lemma DedupKeepsFirst(a: Contour, b: Contour, mask: Mask)
    requires Candidate(a) && Candidate(b)
    ensures Near(a.box, b.box) ==> Detect([a, b], mask) == [Classify(mask, a.box)]
    ensures !Near(a.box, b.box) ==> Detect([a, b], mask) == [Classify(mask, a.box), Classify(mask, b.box)]
  {
    assert [a, b][..1] == [a];
    assert [a][..0] == [];
    assert Detect([a], mask) == [Classify(mask, a.box)];
    assert Boxes([Classify(mask, a.box)]) == [a.box];
    assert [a.box][0] == a.box;
    assert NearAny(b.box, [a.box]) <==> Near(a.box, b.box);
  }

  // ------------------------------------------------- the float tests

  /** For positive `h`, the real-valued aspect test of the source and the
      integer one of SizeOk agree, including at the bounds 0.8 and 1.2. */
  lemma AspectExact(w: int, h: int)
    requires h > 0
    ensures (0.8 < w as real / h as real < 1.2) <==> (4 * h < 5 * w && 5 * w < 6 * h)
  {
    QuotientBounds(0.8, w as real, h as real);
    QuotientBounds(1.2, w as real, h as real);
  }

  /** Comparing a quotient with a bound is comparing the numerator with
      the bound times the (positive) denominator. */
  lemma QuotientBounds(a: real, n: real, d: real)
    requires d > 0.0
    ensures a < n / d <==> a * d < n
    ensures n / d < a <==> n < a * d
  {
    var q := n / d;
    assert q * d == n;
    ScaleLess(a, q, d);
    ScaleLess(q, a, d);
  }

  lemma ScaleLess(a: real, b: real, c: real)
    requires c > 0.0
    ensures a < b <==> a * c < b * c
  {
    assert b * c - a * c == (b - a) * c;
  }

  /** For positive area, `count / (w*h) > 0.4` is `5 * count > 2 * w * h`. */
  lemma FillTestExact(count: int, w: int, h: int)
    requires w > 0 && h > 0
    ensures (count as real / (w * h) as real > 0.4) <==> MarkFor(count, w, h) == CheckedMark
  {
    QuotientBounds(0.4, count as real, (w * h) as real);
    MarksDiffer();
  }

  lemma MarksDiffer()
    ensures CheckedMark != UncheckedMark
  {
    assert CheckedMark[1] != UncheckedMark[1];
  }

  /** The examples the filter must get right: 20x20 passes; 50x50 and
      20x5 do not. */
  lemma SizeExamples()
    ensures SizeOk(Box(0, 0, 20, 20))
    ensures !SizeOk(Box(0, 0, 50, 50)) && !SizeOk(Box(0, 0, 20, 5))
  {
  }

  /** A window exactly 40% full reads as unchecked; 50% as checked. */
  lemma FillExamples()
    ensures MarkFor(200, 20, 20) == CheckedMark
    ensures MarkFor(160, 20, 20) == UncheckedMark
    ensures MarkFor(120, 20, 20) == UncheckedMark
  {
    assert 5 * 160 == 2 * (20 * 20);
    MarksDiffer();
  }
}
