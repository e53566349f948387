# Checkbox OCR pipeline — a Dafny model

This project models the per-page logic of the repository's checkbox
pipeline, as it runs after the image and OCR libraries have done their
work. It also models the knowledge-base splitter used before embedding.
The stages are:

- **`find_checkboxes`**: from the bounding boxes of the 4-corner contours,
  in contour order, keep those whose sides lie strictly between 15 and 40
  and whose aspect `w/h` lies strictly between 0.8 and 1.2. Drop a box whose
  corner is within 5 pixels in both x and y of an earlier kept box. Mark
  each kept box `"[X]"` when more than 40% of its window in the threshold
  mask is non-zero, and `"[ ]"` otherwise.
- **`map_checkboxes_to_words`**: for each checkbox, look for OCR words with
  text whose `top` lies within 20 pixels of the box's vertical centre
  `y + h // 2`. Among them, pick the word whose `left` is nearest to
  `x + w // 2`; on a tie the first such word wins. Append the box's mark to
  that word's list.
- **`compile_final_output`**: one line per word with text, in OCR order.
  A word with marks gets them space-joined in front of it.
- **`clean_text`**, applied to each line: a set of word-boundary regex
  fixes, then deletion of the yen sign, then whitespace runs collapsed to
  one space and the result stripped.
- **`split_text`**: cut the text at every `"###"`, strip each piece, and
  drop the empty ones.

There are two copies of the pipeline: `image_processing/ocr.py` and the
older `2-image_processing/ocr.py`. Their `find_checkboxes`,
`map_checkboxes_to_words` and `compile_final_output` are the same code,
one line apart, so both copies share one model of those stages (modules
`CheckboxDetection`, `WordMapping` and `OutputCompilation`). The two
`clean_text` functions differ in the literal they delete:

- the newer copy deletes `'¥'` (U+00A5). That is modelled in
  `OutputCompilation`.
- the older copy deletes the two-character `'Â¥'` (U+00C2 U+00A5) in one
  pass of `str.replace`. That is modelled in `LegacyOcr`.

A single pass is not a complete removal. Deleting the inner `'Â¥'` of
`"ÂÂ¥¥"` joins the outer two characters into a new `'Â¥'`, so that input
cleans to `"Â¥"`, and cleaning it a second time gives `""`. This is proved
in `LegacyOcr.DoubledLiteralSurvives` and `LegacyOcr.CleanTailNotIdempotent`.
The older tail is complete and idempotent whenever its input has no doubled
`'Â'`.

The rows below cite the newer copy for the shared stages. The same code
sits one line earlier in the older copy: `find_checkboxes` at lines 22-46
(size constants 24-25, filter 33, dedup 34-37, fill test 38-44),
`map_checkboxes_to_words` at 51-77 (inner scan 54-69, append 71-75),
`compile_final_output` at 79-88, and the page sequence at 148-153.

The floating-point tests are stated over integers. They are exactly
equivalent, as `CheckboxDetection.AspectExact` and
`CheckboxDetection.FillTestExact` prove over the reals:

- the aspect test `0.8 < w/h < 1.2` (with `h > 0`) is `4h < 5w` and `5w < 6h`;
- the fill test `count/(w*h) > 0.4` is `5·count > 2·w·h`.

The `float('inf')` starting distance of the nearest-word scan becomes
`None`. The `h // 2` and `w // 2` divide by a positive number, so Python's
floor division and Dafny's `/` agree on them. A window slice of the numpy
mask is clamped to the mask, so `Pixel` reads 0 outside it. Whitespace is
Python's `str.isspace` set, which is the set that both `str.strip()` and
the regex class `\s` use.

Modules:

- `Text` (text.dfy): `strip`, `replace`, the `\s+` collapse, `split` and
  `join`, each as a function, with lemmas stating the properties of it that
  the pipeline relies on.
- `CheckboxDetection` (detection.dfy): `find_checkboxes`.
- `WordMapping` (mapping.dfy): `map_checkboxes_to_words`.
- `OutputCompilation` (output.dfy): `compile_final_output`, the newer
  `clean_text` and one page of the newer script.
- `LegacyOcr` (legacy_ocr.dfy): the older `clean_text` and one page of the
  older script.
- `Embedding` (embedding.dfy): `split_text`.

## Model

| member | source | states |
|---|---|---|
| CheckboxDetection.SizeOk | image_processing/ocr.py:25-34 | a box passes exactly when both sides lie strictly between 15 and 40 and the real-number aspect `w/h` lies strictly between 0.8 and 1.2 |
| CheckboxDetection.MarkFor | image_processing/ocr.py:40-45 | the mark is `"[X]"` or `"[ ]"`, and for positive sides it is `"[X]"` exactly when the real-number ratio `count/(w*h)` exceeds 0.4 |
| CheckboxDetection.SizeExamples | image_processing/ocr.py:25-26 | a 20×20 box passes the size and aspect test; 50×50 and 20×5 fail it |
| CheckboxDetection.AspectExact | image_processing/ocr.py:34 | for `h > 0`, the real-number test `0.8 < w/h < 1.2` holds exactly when `4h < 5w` and `5w < 6h` |
| CheckboxDetection.Classify | image_processing/ocr.py:39-45 | a classified box keeps the candidate's `x, y, w, h` unchanged, so results and `processed_boxes` agree entry for entry |
| CheckboxDetection.Detect | image_processing/ocr.py:30-47 | every result passes the strict size bounds and the aspect bounds; its mark is the fill verdict on its own mask window; no two results are within 5 pixels in both x and y; there are no more results than contours |
| CheckboxDetection.FindCheckboxes | image_processing/ocr.py:23-47 | the loop over contours returns exactly `Detect`, so every result is size-checked and the results are pairwise separated |
| CheckboxDetection.DetectKeepsOrder | image_processing/ocr.py:30-45 | there are strictly increasing contour positions such that result `k` is the classified box of the candidate at position `k`, and every candidate that was not kept lies within 5 pixels of a kept candidate at an earlier position |
| CheckboxDetection.RejectedNeverBlock | image_processing/ocr.py:32-37 | removing every contour that fails the corner, size or aspect test first does not change the result, so a rejected contour never blocks a later one |
| CheckboxDetection.Candidates | image_processing/ocr.py:32-34 | the filtered contours all pass the corner, size and aspect test, and there are no more of them than contours |
| CheckboxDetection.DedupKeepsFirst | image_processing/ocr.py:35-38 | of two candidates within 5 pixels in both x and y, only the first is kept; otherwise both are kept, in order |
| CheckboxDetection.CountNonZero | image_processing/ocr.py:39-40 | the non-zero count of a box window is at most the window's area |
| CheckboxDetection.FillTestExact | image_processing/ocr.py:40-45 | for positive sides, the real-number test `count/(w*h) > 0.4` holds exactly when the mark is `"[X]"` |
| CheckboxDetection.FillExamples | image_processing/ocr.py:42-45 | a 20×20 box with 200 non-zero pixels is `"[X]"`; with 160 (a ratio of exactly 0.4) or 120 it is `"[ ]"` |
| CheckboxDetection.MarksDiffer | image_processing/ocr.py:43-45 | the two marks are different strings |
| WordMapping.Nearest | image_processing/ocr.py:55-70 | the scan finds no word exactly when no word with text is in the 20-pixel band; otherwise it finds an in-band word with the least horizontal distance, strictly nearer than every earlier in-band word, so the lowest index wins a tie |
| WordMapping.NearestUnique | image_processing/ocr.py:66-70 | any in-band word that is as near as every in-band word and strictly nearer than every earlier one is the scan's answer |
| WordMapping.ClosestWord | image_processing/ocr.py:55-70 | the inner loop, with `min_distance` starting at infinity, returns exactly `Nearest` |
| WordMapping.AddMark | image_processing/ocr.py:72-76 | one checkbox adds its chosen word as a key if it is new, appends its mark to that word's list, and leaves every other entry alone; with no chosen word the mapping is unchanged |
| WordMapping.Assign | image_processing/ocr.py:72-76 | every key of the mapping is the index of a word with text that lies in the band of some checkbox |
| WordMapping.AssignIsMarksFor | image_processing/ocr.py:72-76 | word `i` is a key exactly when some checkbox chose it, and its list is the marks of those checkboxes in checkbox order |
| WordMapping.MissLeavesNoTrace | image_processing/ocr.py:72 | a checkbox with no in-band word leaves the mapping unchanged |
| WordMapping.Matched | image_processing/ocr.py:72 | the checkboxes that found a word are no more than the checkboxes |
| WordMapping.OneMarkPerMatch | image_processing/ocr.py:72-76 | the lengths of all the mark lists add up to the number of checkboxes that found a word |
| WordMapping.MapCheckboxesToWords | image_processing/ocr.py:52-78 | the nested loop returns exactly `Assign`, so every key is a word with text |
| WordMapping.NearerWordWins | image_processing/ocr.py:67-70 | of two words in the band, the one nearer the box's horizontal centre is chosen |
| WordMapping.OffBandMisses | image_processing/ocr.py:66 | a word 25 pixels off the box's vertical centre is outside the band |
| OutputCompilation.Compile | image_processing/ocr.py:80-89 | no more lines are emitted than there are words |
| OutputCompilation.TextIndices | image_processing/ocr.py:82-84 | the indices of the words with text, strictly increasing, all of them |
| OutputCompilation.CompileLines | image_processing/ocr.py:80-89 | line `k` of the output is the line of the `k`-th word with text, and there is one line per such word |
| OutputCompilation.Line | image_processing/ocr.py:85-88 | a mapped word's line is its marks space-joined, one space, then the stripped word, with nothing in between (prefix, suffix and total length); an unmapped word's line is the stripped word |
| OutputCompilation.CompileFinalOutput | image_processing/ocr.py:80-89 | the loop returns exactly `Compile`, one line per word with text |
| OutputCompilation.TwoMarksOneWord | image_processing/ocr.py:86 | two marks on `"Yes"` give `"[X] [ ] Yes"` |
| OutputCompilation.YesNoPage | image_processing/ocr.py:176-177 | a checked box beside `"Yes"` and an unchecked one beside `"No"`, 60 pixels lower, give `["[X] Yes", "[ ] No"]` |
| OutputCompilation.YesNoMapping | image_processing/ocr.py:72-76 | on that page each box's mark goes to its own word: `{0: ["[X]"], 1: ["[ ]"]}` |
| OutputCompilation.CleanTail | image_processing/ocr.py:99-100 | the result has no yen sign, no leading or trailing whitespace, and no whitespace other than single spaces |
| OutputCompilation.CleanText | image_processing/ocr.py:91-101 | whatever the regex rules produce, the cleaned text has no yen sign and is stripped and single-spaced |
| OutputCompilation.CleanTailIdempotent | image_processing/ocr.py:99-100 | cleaning a cleaned text again changes nothing |
| OutputCompilation.CleanTailKeepsText | image_processing/ocr.py:99-100 | every character other than whitespace and the yen sign keeps its count, and the non-whitespace characters keep their order |
| OutputCompilation.CleanLines | image_processing/ocr.py:178 | each line is cleaned on its own: as many lines come out as go in, each without yen sign, stripped and single-spaced |
| OutputCompilation.ProcessPage | image_processing/ocr.py:173-178 | one page is detection, mapping, compilation and per-line cleaning, with one clean line per word with text |
| LegacyOcr.CleanTail | 2-image_processing/ocr.py:98-99 | the result is stripped and single-spaced, and has no `'Â¥'` unless the input doubles `'Â'` |
| LegacyOcr.CleanText | 2-image_processing/ocr.py:90-100 | whatever the regex rules produce, the cleaned text is stripped and single-spaced, and lacks `'Â¥'` when the rules' output has no doubled `'Â'` |
| LegacyOcr.DoubledLiteralSurvives | 2-image_processing/ocr.py:98 | the one-pass removal turns `"ÂÂ¥¥"` into `"Â¥"` |
| LegacyOcr.CleanTailNotIdempotent | 2-image_processing/ocr.py:98-99 | cleaning `"ÂÂ¥¥"` twice gives a different text than cleaning it once |
| LegacyOcr.CleanTailIdempotent | 2-image_processing/ocr.py:98-99 | without a doubled `'Â'`, cleaning a cleaned text again changes nothing |
| LegacyOcr.CleanTailKeepsText | 2-image_processing/ocr.py:98-99 | every character other than whitespace, `'Â'` and `'¥'` keeps its count, and the non-whitespace characters are those left after deleting `'Â¥'`, in order |
| LegacyOcr.CleanLines | 2-image_processing/ocr.py:153 | each line is cleaned on its own; the lines come out stripped and single-spaced |
| LegacyOcr.ProcessPage | 2-image_processing/ocr.py:148-153 | one page of the older script is detection, mapping, compilation and per-line cleaning, one clean line per word with text |
| Text.Strip | image_processing/ocr.py:59 | `str.strip()`: the result starts and ends with non-whitespace, and is the input between its leading and trailing whitespace runs |
| Text.HasTextIffStrip | image_processing/ocr.py:59-61 | `if not word.strip()` skips exactly the words with no non-whitespace character |
| Text.StripIdempotent | image_processing/ocr.py:83 | stripping twice is stripping once |
| Text.RemoveAll | image_processing/ocr.py:99 | the one-pass `replace(lit, '')` never lengthens its input |
| Text.RemoveKeepsOthers | 2-image_processing/ocr.py:98 | a character that is not in the deleted literal keeps its count |
| Text.RemoveWhole | 2-image_processing/ocr.py:98 | only whole copies of the literal are deleted: for some `n`, the input is `n` copies of the literal longer than the result and has `n` times the literal's count of every character more |
| Text.RemoveKeepsOrder | 2-image_processing/ocr.py:98 | the result is the input with some characters deleted, the rest in their order |
| Text.RemoveCharComplete | image_processing/ocr.py:99 | `replace('¥', '')` leaves no yen sign and keeps every other character's count |
| Text.RemovePairComplete | 2-image_processing/ocr.py:98 | `replace('Â¥', '')` leaves no `'Â¥'` when the input has no doubled `'Â'` |
| Text.Collapse | image_processing/ocr.py:100 | `re.sub(r'\s+', ' ', …)`: the result has no whitespace but single spaces between non-whitespace, is empty exactly when the input is, and begins and ends with whitespace exactly when the input does |
| Text.CollapseAppend | image_processing/ocr.py:100 | after a non-whitespace character the collapse works independently on the two sides, so no space is lost or added at that point |
| Text.CollapseRun | image_processing/ocr.py:100 | a whitespace run of any kind and length, followed by non-whitespace or the end, becomes exactly one space |
| Text.Squeeze | image_processing/ocr.py:100 | collapse then strip gives a stripped, single-spaced text |
| Text.SqueezeWords | image_processing/ocr.py:100 | two clean words with a whitespace run between them come out joined by exactly one space |
| Text.SqueezeExample | image_processing/ocr.py:100 | `"a \t b"` cleans to `"a b"` |
| Text.SqueezeIdempotent | image_processing/ocr.py:100 | collapse-and-strip twice is collapse-and-strip once |
| Text.SqueezeKeepsNonSpace | image_processing/ocr.py:100 | collapse-and-strip keeps the non-whitespace characters in order |
| Text.Join | image_processing/ocr.py:86 | `" ".join(marks)`: no parts give the empty string, one part gives that part, and otherwise the result starts with the first part and the separator |
| Text.JoinSnoc | image_processing/ocr.py:86 | joining one more part appends the separator and that part |
| Text.Split | embedding/create_db_embedding.py:26 | `str.split("###")` gives at least one piece, and the first is a prefix of the input |
| Text.SplitFirstCut | embedding/create_db_embedding.py:26 | the first piece is followed by the separator when there are more pieces, and the remaining pieces are the split of the text after that separator; a single piece is the whole text |
| Text.SplitFirstLeftmost | embedding/create_db_embedding.py:26 | no occurrence of the separator starts inside the first piece, so each cut is at the leftmost occurrence |
| Text.JoinSplit | embedding/create_db_embedding.py:26 | joining the pieces with the separator gives the input back |
| Text.SplitPiecesLackSep | embedding/create_db_embedding.py:26 | no piece of a split contains the separator |
| Text.SplitAbsent | embedding/create_db_embedding.py:26 | a text without the separator splits into itself alone |
| Embedding.StrippedPieces | embedding/create_db_embedding.py:27 | every kept piece is non-empty and stripped, and there are no more kept pieces than pieces |
| Embedding.StrippedPiecesOrigin | embedding/create_db_embedding.py:27 | kept piece `k` is the strip of the piece at a strictly increasing position, and every piece with text is kept |
| Embedding.SplitText | embedding/create_db_embedding.py:25-27 | no returned piece is empty, each equals its own strip, and none contains `"###"` |
| Embedding.SplitTextPieces | embedding/create_db_embedding.py:26-27 | the result is exactly the stripped pieces of the split that have text, in order |
| Embedding.SplitTextBlank | embedding/create_db_embedding.py:26-27 | an empty or whitespace-only text gives no pieces |
| Embedding.SplitTextSingle | embedding/create_db_embedding.py:26-27 | a text with no `"###"` and some non-whitespace gives just its strip |
| Embedding.SplitTextPieceFixed | embedding/create_db_embedding.py:27 | splitting a returned piece again gives that piece alone |

## Left out

- The OpenCV calls (`findContours`, `approxPolyDP`, `arcLength`,
  `boundingRect`, `cvtColor`, `GaussianBlur`, `threshold`) are foreign image
  code. `find_checkboxes` takes the contours as their corner count and
  bounding box, in contour order, and the threshold image as a grid of
  integers. `countNonZero` over the window is modelled on that grid.
- `load_image`, `preprocess_image` and `extract_text` are image I/O and a
  Tesseract call. The OCR result is three parallel sequences `text`, `left`
  and `top`.
- OutputCompilation.CleanText: the word-boundary regex rules of `clean_text`
  (`image_processing/ocr.py:92-98`) need a model of `\b`, alternation and
  case-insensitive matching. They are an arbitrary string function `rules`,
  so idempotence is proved for the tail only.
- LegacyOcr.CleanText: the older copy's regex rules
  (`2-image_processing/ocr.py:91-97`) are likewise an arbitrary function.
- LegacyOcr.CleanTail: the older copy removes every `'Â¥'` only when its
  input has no doubled `'Â'`. `LegacyOcr.DoubledLiteralSurvives` gives an
  input where one survives.
- `process_text`, `generate_openai_response`, `search_documents` and the
  vector-store code make network calls to the language model and the
  database.
- `save_results`, `save_response_to_json` and the module-level script code
  (folder listing, environment variables, file reads and writes, the input
  loop) are I/O. `ProcessPage` models one page of the folder loop, without
  the `" ".join` into `process_text`.
- pdf_to_image/pdf_to_jpg.py, 1-pdf_to_image/pdf_to_jpg.py and
  query_and_response/iep_assistant.py are not part of this model. They are
  PDF conversion, file plumbing and a wrapper around the language model.
- Floating point is not modelled. The ratio tests are integer
  cross-multiplications, proved equal to the tests over the reals, not over
  IEEE doubles; rounding of `w/h` and of the ratio is not modelled.
- CheckboxDetection.CountNonZero: the model assumes a box's window starts
  inside the mask. A negative `x` or `y` would make numpy count from the
  far edge. Pixels beyond the mask read 0, as numpy's clamped slicing gives.
- WordMapping.ClosestWord: the inner loop of `map_checkboxes_to_words` is a
  method of its own, which the outer loop calls.
