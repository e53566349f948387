/** The older script (2-image_processing/ocr.py). Its checkbox detection,
    word mapping and output compilation are the same code as the newer
    script's and are the ones in CheckboxDetection, WordMapping and
    OutputCompilation; its `clean_text` deletes the two-character literal
    'Â¥' (U+00C2 U+00A5) in one left-to-right pass instead of the yen sign. */
module LegacyOcr {
  import opened Text
  import opened CheckboxDetection
  import opened WordMapping
  import OutputCompilation

  /** 'Â' (U+00C2), the first character of the mis-decoded yen sign. */
  const ACircumflex: char := '\U{C2}'

  /** The literal the older `clean_text` deletes: 'Â¥'. */
  const LegacyLiteral: String := [ACircumflex, OutputCompilation.Yen]

  /** The last two steps of the older `clean_text`: one pass deleting 'Â¥',
      then collapsing whitespace runs and stripping. No 'Â¥' is left unless
      the input doubles 'Â'. */
  function CleanTail(s: String): (r: String)
    ensures Bare(r) && SingleSpaced(r)
    ensures !Contains(s, [ACircumflex, ACircumflex]) ==> !Contains(r, LegacyLiteral)
  {
    var t := RemoveAll(s, LegacyLiteral);
    if !Contains(s, [ACircumflex, ACircumflex]) then
      RemovePairComplete(s, ACircumflex, OutputCompilation.Yen);
      SqueezeKeepsAbsent(t, ACircumflex, OutputCompilation.Yen);
      Squeeze(t)
    else
      Squeeze(t)
  }

  /** The older `clean_text`: the word-boundary rules, which are not modelled
      and arrive as `rules`, then the tail. */
  function CleanText(rules: String -> String, s: String): (r: String)
    ensures Bare(r) && SingleSpaced(r)
    ensures !Contains(rules(s), [ACircumflex, ACircumflex]) ==> !Contains(r, LegacyLiteral)
  {
    CleanTail(rules(s))
  }

  /** One pass of `replace` is not a complete removal: deleting the inner
      'Â¥' of "ÂÂ¥¥" joins the outer two characters into a new one. */
  lemma DoubledLiteralSurvives()
    ensures CleanTail([ACircumflex, ACircumflex, OutputCompilation.Yen, OutputCompilation.Yen]) == LegacyLiteral
    ensures Contains(CleanTail([ACircumflex, ACircumflex, OutputCompilation.Yen, OutputCompilation.Yen]), LegacyLiteral)
  {
    var y := OutputCompilation.Yen;
    var s := [ACircumflex, ACircumflex, y, y];
    assert !(LegacyLiteral <= s);
    assert s[1..] == [ACircumflex, y, y] && LegacyLiteral <= s[1..];
    assert s[1..][2..] == [y];
    assert !(LegacyLiteral <= [y]) && [y][1..] == [];
    assert RemoveAll([y], LegacyLiteral) == [y];
    assert RemoveAll(s[1..], LegacyLiteral) == [y];
    assert RemoveAll(s, LegacyLiteral) == LegacyLiteral;
    assert Bare(LegacyLiteral) && SingleSpaced(LegacyLiteral);
    StripBare(LegacyLiteral);
    CollapseSingleSpaced(LegacyLiteral);
  }

  /** Hence cleaning twice can differ from cleaning once. */
  lemma CleanTailNotIdempotent()
    ensures CleanTail(CleanTail([ACircumflex, ACircumflex, OutputCompilation.Yen, OutputCompilation.Yen]))
      != CleanTail([ACircumflex, ACircumflex, OutputCompilation.Yen, OutputCompilation.Yen])
  {
    DoubledLiteralSurvives();
    var r := LegacyLiteral;
    assert LegacyLiteral <= r && r[2..] == [];
    assert RemoveAll(r, LegacyLiteral) == [];
    assert Lead([]) == 0;
  }

  /** Without a doubled 'Â' the older tail is idempotent as well. */
  lemma CleanTailIdempotent(s: String)
    requires !Contains(s, [ACircumflex, ACircumflex])
    ensures CleanTail(CleanTail(s)) == CleanTail(s)
  {
    var t := CleanTail(s);
    RemoveAbsent(t, LegacyLiteral);
    SqueezeIdempotent(RemoveAll(s, LegacyLiteral));
  }

  /** Characters other than whitespace, 'Â' and '¥' are kept as often as
      they occur, and in order among the non-whitespace ones. */
  lemma CleanTailKeepsText(s: String, x: char)
    requires !IsSpace(x) && x != ACircumflex && x != OutputCompilation.Yen
    ensures multiset(CleanTail(s))[x] == multiset(s)[x]
    ensures NonSpace(CleanTail(s)) == NonSpace(RemoveAll(s, LegacyLiteral))
  {
    var t := RemoveAll(s, LegacyLiteral);
    RemoveKeepsOthers(s, LegacyLiteral, x);
    SqueezeKeepsNonSpace(t);
    NonSpaceCounts(t, x);
    NonSpaceCounts(Squeeze(t), x);
  }

  /** `[clean_text(line) for line in final_output]` in the older script. */
  function CleanLines(rules: String -> String, lines: seq<String>): (r: seq<String>)
    ensures |r| == |lines|
    ensures forall k :: 0 <= k < |r| ==> Bare(r[k]) && SingleSpaced(r[k])
  {
    seq(|lines|, k requires 0 <= k < |lines| => CleanText(rules, lines[k]))
  }

  /** One page of the older script's folder loop, from the mask and the OCR
      columns to the cleaned lines. */
  method ProcessPage(contours: seq<Contour>, mask: Mask, d: OcrData, rules: String -> String)
    returns (lines: seq<String>)
    requires WellFormed(d)
    ensures lines == CleanLines(rules, OutputCompilation.Compile(d.text, Assign(d, Detect(contours, mask)), |d.text|))
    ensures |lines| == |OutputCompilation.TextIndices(d.text, |d.text|)|
    ensures forall k :: 0 <= k < |lines| ==> Bare(lines[k]) && SingleSpaced(lines[k])
  {
    var checkboxResults := FindCheckboxes(contours, mask);
    var mapping := MapCheckboxesToWords(checkboxResults, d);
    var finalOutput := OutputCompilation.CompileFinalOutput(d.text, mapping);
    lines := CleanLines(rules, finalOutput);
  }
}
