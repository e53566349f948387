/** `compile_final_output`, `clean_text` and the per-page sequence of the
    newer script (image_processing/ocr.py). */
module OutputCompilation {
  import opened Text
  import opened CheckboxDetection
  import opened WordMapping

  /** The literal `clean_text` deletes: the yen sign. */
  const Yen: char := '\U{A5}'

  /** The line emitted for word `i`: its marks joined by spaces, a space,
      then the word; the bare word when it has no marks. The line always
      ends with the stripped word. */
  function Line(text: seq<String>, m: Mapping, i: nat): (r: String)
    requires i < |text|
    ensures |Strip(text[i])| <= |r|
    ensures r[|r| - |Strip(text[i])|..] == Strip(text[i])
    ensures i in m ==> Join(m[i], " ") + " " <= r
    ensures i in m ==> |r| == |Join(m[i], " ")| + 1 + |Strip(text[i])|
    ensures i !in m ==> r == Strip(text[i])
  {
    var word := Strip(text[i]);
    if i in m then
      var prefix := Join(m[i], " ") + " ";
      var line := prefix + word;
      assert line[|line| - |word|..] == word;
      line
    else word
  }

  /** `compile_final_output` over the first `n` words. */
  function Compile(text: seq<String>, m: Mapping, n: nat): (r: seq<String>)
    requires n <= |text|
    ensures |r| <= n
    decreases n
  {
    if n == 0 then []
    else Compile(text, m, n - 1) + (if HasText(text[n - 1]) then [Line(text, m, n - 1)] else [])
  }

  /** The positions of the first `n` words that have text, in increasing
      order, and all of them. */
  function TextIndices(text: seq<String>, n: nat): (r: seq<nat>)
    requires n <= |text|
    ensures forall k :: 0 <= k < |r| ==> r[k] < n && HasText(text[r[k]])
    ensures forall j, k :: 0 <= j < k < |r| ==> r[j] < r[k]
    ensures forall i :: 0 <= i < n && HasText(text[i]) ==> i in r
    decreases n
  {
    if n == 0 then []
    else TextIndices(text, n - 1) + (if HasText(text[n - 1]) then [n - 1] else [])
  }

  /** One output line per word that has text, in word order, and nothing
      else. */
  lemma {:induction false} CompileLines(text: seq<String>, m: Mapping, n: nat)
    requires n <= |text|
    ensures |Compile(text, m, n)| == |TextIndices(text, n)|
    ensures forall k :: 0 <= k < |Compile(text, m, n)| ==>
      Compile(text, m, n)[k] == Line(text, m, TextIndices(text, n)[k])
    decreases n
  {
    if n > 0 {
      CompileLines(text, m, n - 1);
    }
  }

  /** The loop of `compile_final_output`. */
  method CompileFinalOutput(text: seq<String>, mapping: Mapping) returns (finalOutput: seq<String>)
    ensures finalOutput == Compile(text, mapping, |text|)
    ensures |finalOutput| == |TextIndices(text, |text|)|
  {
    finalOutput := [];
    var i := 0;
    while i < |text|
      invariant 0 <= i <= |text|
      invariant finalOutput == Compile(text, mapping, i)
    {
      var word := Strip(text[i]);
      HasTextIffStrip(text[i]);
      if word != [] {
        if i in mapping {
          finalOutput := finalOutput + [Join(mapping[i], " ") + " " + word];
        } else {
          finalOutput := finalOutput + [word];
        }
      }
      i := i + 1;
    }
    CompileLines(text, mapping, |text|);
  }

  /** Two marks on one word come out space-joined in checkbox order. */
  lemma TwoMarksOneWord()
    ensures Line(["Yes"], map[0 := [CheckedMark, UncheckedMark]], 0) == "[X] [ ] Yes"
  {
    StripBare("Yes");
    var marks := [CheckedMark, UncheckedMark];
    assert marks[1..] == [UncheckedMark];
    assert Join(marks, " ") == CheckedMark + " " + UncheckedMark;
  }

  /** A page with a checked box beside "Yes" and an unchecked one beside
      "No", one text line apart, reads `["[X] Yes", "[ ] No"]`. */
  lemma YesNoPage()
    ensures var d := OcrData(["Yes", "No"], [120, 120], [200, 260]);
      var cs := [Checkbox(90, 195, 20, 20, CheckedMark), Checkbox(90, 255, 20, 20, UncheckedMark)];
      Compile(d.text, Assign(d, cs), 2) == ["[X] Yes", "[ ] No"]
  {
    var d := OcrData(["Yes", "No"], [120, 120], [200, 260]);
    var m := YesNoMapping();
    YesNoWords();
    var yes := CheckedMark + " " + "Yes";
    var no := UncheckedMark + " " + "No";
    OneMarkLine(d.text, m, 0, CheckedMark);
    OneMarkLine(d.text, m, 1, UncheckedMark);
    CompileTwo(d.text, m, yes, no);
  }

  /** The two words of that page and their lines. */
  lemma YesNoWords()
    ensures Bare("Yes") && Bare("No") && HasText("Yes") && HasText("No")
    ensures CheckedMark + " " + "Yes" == "[X] Yes" && UncheckedMark + " " + "No" == "[ ] No"
  {
    assert "Yes"[0] in "Yes";
    assert "No"[0] in "No";
  }

  /** The line of a bare word carrying a single mark. */
  lemma OneMarkLine(text: seq<String>, m: Mapping, i: nat, mark: String)
    requires i < |text| && Bare(text[i]) && i in m && m[i] == [mark]
    ensures Line(text, m, i) == mark + " " + text[i]
  {
    StripBare(text[i]);
  }

  /** Two words with text compile to their two lines. */
  lemma CompileTwo(text: seq<String>, m: Mapping, a: String, b: String)
    requires |text| == 2 && HasText(text[0]) && HasText(text[1])
    requires Line(text, m, 0) == a && Line(text, m, 1) == b
    ensures Compile(text, m, 2) == [a, b]
  {
    assert Compile(text, m, 1) == [a];
  }

  /** The mapping of that page: each box on its own word. */
  lemma YesNoMapping() returns (m: Mapping)
    ensures var d := OcrData(["Yes", "No"], [120, 120], [200, 260]);
      var cs := [Checkbox(90, 195, 20, 20, CheckedMark), Checkbox(90, 255, 20, 20, UncheckedMark)];
      m == Assign(d, cs) && m == map[0 := [CheckedMark], 1 := [UncheckedMark]]
  {
    var d := OcrData(["Yes", "No"], [120, 120], [200, 260]);
    var yes := Checkbox(90, 195, 20, 20, CheckedMark);
    var no := Checkbox(90, 255, 20, 20, UncheckedMark);
    var cs := [yes, no];
    assert HasText(d.text[0]) && HasText(d.text[1]);
    assert Nearest(d, yes, 1) == Some(0);
    assert Nearest(d, yes, 2) == Some(0);
    assert Nearest(d, no, 1) == None;
    assert Nearest(d, no, 2) == Some(1);
    assert cs[..1] == [yes] && [yes][..0] == [];
    assert Assign(d, [yes][..0]) == map[];
    var none: seq<String> := [];
    assert none + [CheckedMark] == [CheckedMark];
    var m1 := Assign(d, [yes]);
    assert m1 == AddMark(d, map[], yes);
    assert m1 == map[0 := [CheckedMark]];
    m := Assign(d, cs);
    assert m == AddMark(d, m1, no);
    assert none + [UncheckedMark] == [UncheckedMark];
  }

  // ---------------------------------------------------------- clean_text

  /** The last two steps of `clean_text`: drop every yen sign, then
      collapse whitespace runs and strip. */
  function CleanTail(s: String): (r: String)
    ensures Yen !in r
    ensures Bare(r) && SingleSpaced(r)
  {
    var t := RemoveAll(s, [Yen]);
    RemoveCharComplete(s, Yen);
    SqueezeChars(t, Yen);
    Squeeze(t)
  }

  /** `clean_text`: the word-boundary rules, which are not modelled and
      arrive as `rules`, then the deterministic tail. */
  function CleanText(rules: String -> String, s: String): (r: String)
    ensures Yen !in r
    ensures Bare(r) && SingleSpaced(r)
  {
    CleanTail(rules(s))
  }

  /** Cleaning again changes nothing. */
  lemma CleanTailIdempotent(s: String)
    ensures CleanTail(CleanTail(s)) == CleanTail(s)
  {
    var t := CleanTail(s);
    AbsentChar(t, Yen);
    RemoveAbsent(t, [Yen]);
    SqueezeIdempotent(RemoveAll(s, [Yen]));
  }

  /** Cleaning keeps every character other than whitespace and the yen
      sign, as often as it occurs, and in order among the non-whitespace
      ones. */
  lemma CleanTailKeepsText(s: String, x: char)
    requires !IsSpace(x) && x != Yen
    ensures multiset(CleanTail(s))[x] == multiset(s)[x]
    ensures NonSpace(CleanTail(s)) == NonSpace(RemoveAll(s, [Yen]))
  {
    var t := RemoveAll(s, [Yen]);
    RemoveCharComplete(s, Yen);
    SqueezeKeepsNonSpace(t);
    NonSpaceCounts(t, x);
    NonSpaceCounts(Squeeze(t), x);
  }

  /** `[clean_text(line) for line in final_output]`: each line on its own. */
  function CleanLines(rules: String -> String, lines: seq<String>): (r: seq<String>)
    ensures |r| == |lines|
    ensures forall k :: 0 <= k < |r| ==> Yen !in r[k] && Bare(r[k]) && SingleSpaced(r[k])
  {
    seq(|lines|, k requires 0 <= k < |lines| => CleanText(rules, lines[k]))
  }

  /** One page of `detect_filled_checkboxes_and_extract_text_from_folder`,
      from the mask and the OCR columns to the cleaned lines. */
  method ProcessPage(contours: seq<Contour>, mask: Mask, d: OcrData, rules: String -> String)
    returns (lines: seq<String>)
    requires WellFormed(d)
    ensures lines == CleanLines(rules, Compile(d.text, Assign(d, Detect(contours, mask)), |d.text|))
    ensures |lines| == |TextIndices(d.text, |d.text|)|
    ensures forall k :: 0 <= k < |lines| ==> Yen !in lines[k] && Bare(lines[k]) && SingleSpaced(lines[k])
  {
    var checkboxResults := FindCheckboxes(contours, mask);
    var mapping := MapCheckboxesToWords(checkboxResults, d);
    var finalOutput := CompileFinalOutput(d.text, mapping);
    lines := CleanLines(rules, finalOutput);
  }
}
