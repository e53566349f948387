/** `map_checkboxes_to_words`: each checkbox, in order, is given to the
    nearest word on its text line, and its mark is appended to that word's
    list in the mapping. The OCR output (`pytesseract.image_to_data`) is
    the three parallel columns `text`, `left` and `top`. */
module WordMapping {
  import opened Text
  import opened CheckboxDetection

  datatype Option<T> = None | Some(value: T)

  /** The columns of the OCR result that the mapping and the output use. */
  datatype OcrData = OcrData(text: seq<String>, left: seq<int>, top: seq<int>)

  /** From word index to the marks given to that word, in checkbox order. */
  type Mapping = map<nat, seq<String>>

  predicate WellFormed(d: OcrData) {
    |d.left| == |d.text| && |d.top| == |d.text|
  }

  const BandTolerance := 20

  /** `cy + h // 2`; Python's `//` and Dafny's `/` agree for the divisor 2. */
  function CenterY(c: Checkbox): int { c.y + c.h / 2 }

  /** `cx + w // 2`. */
  function CenterX(c: Checkbox): int { c.x + c.w / 2 }

  /** Word `i` has text and sits within 20 pixels of the checkbox's
      vertical centre. */
  predicate InBand(d: OcrData, c: Checkbox, i: nat)
    requires WellFormed(d) && i < |d.text|
  {
    HasText(d.text[i]) && Abs(d.top[i] - CenterY(c)) < BandTolerance
  }

  /** Horizontal distance from word `i`'s left edge to the checkbox's centre. */
  function Distance(d: OcrData, c: Checkbox, i: nat): nat
    requires WellFormed(d) && i < |d.text|
  {
    Abs(d.left[i] - CenterX(c))
  }

  /** The word the scan over the first `n` words settles on: the one in
      the band with the least distance, the earliest of them on a tie, or
      none when the band is empty. */
  function Nearest(d: OcrData, c: Checkbox, n: nat): (r: Option<nat>)
    requires WellFormed(d) && n <= |d.text|
    ensures r.None? <==> forall j :: 0 <= j < n ==> !InBand(d, c, j)
    ensures r.Some? ==> r.value < n && InBand(d, c, r.value)
    ensures r.Some? ==> forall j :: 0 <= j < n && InBand(d, c, j) ==> Distance(d, c, r.value) <= Distance(d, c, j)
    ensures r.Some? ==> forall j :: 0 <= j < r.value && InBand(d, c, j) ==> Distance(d, c, r.value) < Distance(d, c, j)
    decreases n
  {
    if n == 0 then None
    else
      var prev := Nearest(d, c, n - 1);
      var here := InBand(d, c, n - 1);
      if here && (prev.None? || Distance(d, c, n - 1) < Distance(d, c, prev.value)) then
        var dn := Distance(d, c, n - 1);
        assert forall j :: 0 <= j < n - 1 && InBand(d, c, j) ==> dn < Distance(d, c, j);
        Some(n - 1)
      else
        prev
  }

  /** The contract of Nearest pins its answer down: no other word meets it. */
  lemma NearestUnique(d: OcrData, c: Checkbox, i: nat)
    requires WellFormed(d) && i < |d.text| && InBand(d, c, i)
    requires forall j :: 0 <= j < |d.text| && InBand(d, c, j) ==> Distance(d, c, i) <= Distance(d, c, j)
    requires forall j :: 0 <= j < i && InBand(d, c, j) ==> Distance(d, c, i) < Distance(d, c, j)
    ensures Nearest(d, c, |d.text|) == Some(i)
  {
    var r := Nearest(d, c, |d.text|);
    assert r.Some?;
    assert !(r.value < i) && !(i < r.value);
  }

  /** The checkbox's mark appended to the list of the word it picks. */
  function AddMark(d: OcrData, m: Mapping, c: Checkbox): (r: Mapping)
    requires WellFormed(d)
    ensures forall j :: j in r <==> j in m || Nearest(d, c, |d.text|) == Some(j)
    ensures forall j :: j in m && Nearest(d, c, |d.text|) != Some(j) ==> r[j] == m[j]
    ensures forall j :: Nearest(d, c, |d.text|) == Some(j) ==> r[j] == (if j in m then m[j] else []) + [c.mark]
  {
    match Nearest(d, c, |d.text|)
    case None => m
    case Some(i) => m[i := (if i in m then m[i] else []) + [c.mark]]
  }

  /** The mapping after the checkboxes `cs`, in order. */
  function Assign(d: OcrData, cs: seq<Checkbox>): (m: Mapping)
    requires WellFormed(d)
    ensures forall i :: i in m ==> i < |d.text| && HasText(d.text[i])
    ensures forall i :: i in m ==> i < |d.text| && exists k :: 0 <= k < |cs| && InBand(d, cs[k], i)
    decreases |cs|
  {
    if cs == [] then map[]
    else
      var front := cs[..|cs| - 1];
      assert forall k :: 0 <= k < |front| ==> front[k] == cs[k];
      AddMark(d, Assign(d, front), cs[|cs| - 1])
  }

  /** The marks of the checkboxes of `cs` whose nearest word is `i`, in
      checkbox order. */
  function MarksFor(d: OcrData, cs: seq<Checkbox>, i: nat): seq<String>
    requires WellFormed(d)
    decreases |cs|
  {
    if cs == [] then []
    else
      var c := cs[|cs| - 1];
      MarksFor(d, cs[..|cs| - 1], i) + (if Nearest(d, c, |d.text|) == Some(i) then [c.mark] else [])
  }

  /** The mapping holds a word exactly when some checkbox picked it, and
      then its list is the marks of those checkboxes in processing order:
      marks are appended, never overwritten. */
  lemma {:induction false} AssignIsMarksFor(d: OcrData, cs: seq<Checkbox>, i: nat)
    requires WellFormed(d)
    ensures i in Assign(d, cs) <==> MarksFor(d, cs, i) != []
    ensures i in Assign(d, cs) ==> Assign(d, cs)[i] == MarksFor(d, cs, i)
    decreases |cs|
  {
    if cs != [] {
      AssignIsMarksFor(d, cs[..|cs| - 1], i);
    }
  }

  /** A word that no checkbox picked gets no entry; a checkbox whose band
      holds no word leaves no trace. */
  lemma {:induction false} MissLeavesNoTrace(d: OcrData, cs: seq<Checkbox>, c: Checkbox)
    requires WellFormed(d) && forall j :: 0 <= j < |d.text| ==> !InBand(d, c, j)
    ensures Assign(d, cs + [c]) == Assign(d, cs)
  {
    assert (cs + [c])[..|cs|] == cs;
  }

  /** The checkboxes of `cs` that found a word. */
  function Matched(d: OcrData, cs: seq<Checkbox>): (r: seq<Checkbox>)
    requires WellFormed(d)
    ensures |r| <= |cs|
    decreases |cs|
  {
    if cs == [] then []
    else
      var c := cs[|cs| - 1];
      Matched(d, cs[..|cs| - 1]) + (if Nearest(d, c, |d.text|).Some? then [c] else [])
  }

  /** The number of marks held for the words `0 .. n-1`. */
  function TotalMarks(m: Mapping, n: nat): nat
    decreases n
  {
    if n == 0 then 0 else TotalMarks(m, n - 1) + (if n - 1 in m then |m[n - 1]| else 0)
  }

  /** Each checkbox adds at most one mark: the marks in the mapping number
      exactly the checkboxes that found a word. */
  lemma {:induction false} OneMarkPerMatch(d: OcrData, cs: seq<Checkbox>)
    requires WellFormed(d)
    ensures TotalMarks(Assign(d, cs), |d.text|) == |Matched(d, cs)|
    decreases |cs|
  {
    if cs == [] {
      TotalMarksEmpty(|d.text|);
    } else {
      var front := cs[..|cs| - 1];
      var c := cs[|cs| - 1];
      OneMarkPerMatch(d, front);
      var m := Assign(d, front);
      assert Assign(d, cs) == AddMark(d, m, c);
      assert Matched(d, cs) == Matched(d, front) + (if Nearest(d, c, |d.text|).Some? then [c] else []);
      match Nearest(d, c, |d.text|)
      case None =>
        assert Assign(d, cs) == m;
      case Some(i) =>
        assert Assign(d, cs) == m[i := (if i in m then m[i] else []) + [c.mark]];
        TotalMarksBump(m, i, c.mark, |d.text|);
    }
  }

  lemma {:induction false} TotalMarksEmpty(n: nat)
    ensures TotalMarks(map[], n) == 0
    decreases n
  {
    if n > 0 { TotalMarksEmpty(n - 1); }
  }

  lemma {:induction false} TotalMarksBump(m: Mapping, i: nat, mark: String, n: nat)
    requires i < n
    ensures TotalMarks(m[i := (if i in m then m[i] else []) + [mark]], n) == TotalMarks(m, n) + 1
    decreases n
  {
    var m' := m[i := (if i in m then m[i] else []) + [mark]];
    if n - 1 != i {
      TotalMarksBump(m, i, mark, n - 1);
    } else {
      TotalMarksSame(m, m', n - 1);
    }
  }

  lemma {:induction false} TotalMarksSame(m: Mapping, m': Mapping, n: nat)
    requires forall k :: 0 <= k < n ==> (k in m <==> k in m') && (k in m ==> m[k] == m'[k])
    ensures TotalMarks(m, n) == TotalMarks(m', n)
    decreases n
  {
    if n > 0 { TotalMarksSame(m, m', n - 1); }
  }

  /** The inner loop of `map_checkboxes_to_words`: the scan for the
      checkbox's word. `min_distance` starts at `float('inf')`, modelled as
      None, and only a strictly smaller distance replaces the candidate. */
  method ClosestWord(c: Checkbox, d: OcrData) returns (closest: Option<nat>)
    requires WellFormed(d)
    ensures closest == Nearest(d, c, |d.text|)
  {
    closest := None;
    var minDistance: Option<nat> := None;
    var i := 0;
    while i < |d.text|
      invariant 0 <= i <= |d.text|
      invariant closest == Nearest(d, c, i)
      invariant minDistance == if closest.None? then None else Some(Distance(d, c, closest.value))
    {
      assert Nearest(d, c, i + 1) ==
        if InBand(d, c, i) && (closest.None? || Distance(d, c, i) < Distance(d, c, closest.value))
        then Some(i) else closest;
      var word := Strip(d.text[i]);
      HasTextIffStrip(d.text[i]);
      if word != [] {
        var x := d.left[i];
        var y := d.top[i];
        if Abs(y - (c.y + c.h / 2)) < BandTolerance {
          var distance := Abs(x - (c.x + c.w / 2));
          if minDistance.None? || distance < minDistance.value {
            minDistance := Some(distance);
            closest := Some(i);
          }
        }
      }
      i := i + 1;
    }
  }

  /** The outer loop of `map_checkboxes_to_words`: the dictionary is
      updated in place, appending to an existing list or starting one. */
  method MapCheckboxesToWords(cs: seq<Checkbox>, d: OcrData) returns (mapping: Mapping)
    requires WellFormed(d)
    ensures mapping == Assign(d, cs)
    ensures forall i :: i in mapping ==> i < |d.text| && HasText(d.text[i])
  {
    mapping := map[];
    var k := 0;
    while k < |cs|
      invariant 0 <= k <= |cs|
      invariant mapping == Assign(d, cs[..k])
    {
      var c := cs[k];
      assert cs[..k + 1][..k] == cs[..k] && cs[..k + 1][k] == c;
      assert Assign(d, cs[..k + 1]) == AddMark(d, mapping, c);
      ghost var before := mapping;
      var closest := ClosestWord(c, d);
      if closest.Some? {
        var idx := closest.value;
        if idx in mapping {
          mapping := mapping[idx := mapping[idx] + [c.mark]];
        } else {
          assert [] + [c.mark] == [c.mark];
          mapping := mapping[idx := [c.mark]];
        }
      }
      assert mapping == AddMark(d, before, c);
      k := k + 1;
    }
    assert cs[..k] == cs;
  }

  /** The nearer of two words on the checkbox's line wins: with the
      checkbox centred at (105, 205) and words at left 90 and left 150,
      both at top 200, the word at left 90 is chosen. */
  lemma NearerWordWins()
    ensures Nearest(OcrData(["A", "B"], [90, 150], [200, 200]), Checkbox(95, 195, 20, 20, CheckedMark), 2) == Some(0)
  {
    var d := OcrData(["A", "B"], [90, 150], [200, 200]);
    var c := Checkbox(95, 195, 20, 20, CheckedMark);
    assert HasText(d.text[0]) && HasText(d.text[1]);
    assert Nearest(d, c, 1) == Some(0);
  }

  /** A word 25 pixels off the checkbox's centre is outside the band. */
  lemma OffBandMisses()
    ensures Nearest(OcrData(["Yes"], [120], [230]), Checkbox(90, 195, 20, 20, CheckedMark), 1) == None
  {
  }
}
