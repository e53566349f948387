/** `split_text` of embedding/create_db_embedding.py: the knowledge-base text
    cut at every "###", each piece stripped, empty pieces dropped. */
module Embedding {
  import opened Text

  /** The section delimiter. */
  const Delimiter: String := "###"

  /** The stripped pieces that are not empty, in order. */
  function StrippedPieces(pieces: seq<String>): (r: seq<String>)
    ensures |r| <= |pieces|
    ensures forall k :: 0 <= k < |r| ==> r[k] != [] && Bare(r[k])
    decreases |pieces|
  {
    if pieces == [] then []
    else
      var p := Strip(pieces[|pieces| - 1]);
      StrippedPieces(pieces[..|pieces| - 1]) + (if p != [] then [p] else [])
  }

  /** Each kept piece is the stripped form of some input piece, in input
      order, and every input piece with text is kept. */
  lemma {:induction false} StrippedPiecesOrigin(pieces: seq<String>) returns (idx: seq<nat>)
    ensures |idx| == |StrippedPieces(pieces)|
    ensures forall k :: 0 <= k < |idx| ==> idx[k] < |pieces| && StrippedPieces(pieces)[k] == Strip(pieces[idx[k]])
    ensures Increasing(idx)
    ensures forall j :: 0 <= j < |pieces| && HasText(pieces[j]) ==> j in idx
    decreases |pieces|
  {
    if pieces == [] {
      idx := [];
    } else {
      var n := |pieces| - 1;
      var init := pieces[..n];
      var prev := StrippedPiecesOrigin(init);
      assert forall j :: 0 <= j < n ==> init[j] == pieces[j];
      HasTextIffStrip(pieces[n]);
      if HasText(pieces[n]) {
        idx := prev + [n];
        IncreasingSnoc(prev, n);
      } else {
        idx := prev;
      }
      KeptAll(pieces, prev, idx);
    }
  }

  /** Strictly increasing positions. */
  predicate Increasing(idx: seq<nat>) {
    forall j, k :: 0 <= j < k < |idx| ==> idx[j] < idx[k]
  }

  lemma IncreasingSnoc(prev: seq<nat>, n: nat)
    requires Increasing(prev) && forall k :: 0 <= k < |prev| ==> prev[k] < n
    ensures Increasing(prev + [n])
  {
  }

  /** One induction step of StrippedPiecesOrigin's last property. */
  lemma KeptAll(pieces: seq<String>, prev: seq<nat>, idx: seq<nat>)
    requires |pieces| > 0
    requires forall j :: 0 <= j < |pieces| - 1 && HasText(pieces[j]) ==> j in prev
    requires idx == if HasText(pieces[|pieces| - 1]) then prev + [|pieces| - 1] else prev
    ensures forall j :: 0 <= j < |pieces| && HasText(pieces[j]) ==> j in idx
  {
  }

  /** `split_text`. */
  function SplitText(text: String): (r: seq<String>)
    ensures forall k :: 0 <= k < |r| ==> r[k] != [] && Strip(r[k]) == r[k]
    ensures forall k :: 0 <= k < |r| ==> !Contains(r[k], Delimiter)
  {
    var pieces := Split(text, Delimiter);
    var r := StrippedPieces(pieces);
    SplitPiecesLackSep(text, Delimiter);
    StrippedPiecesLack(pieces);
    BareFixed(r);
    r
  }

  /** Every piece in `r` is bare, so stripping changes none of them. */
  lemma BareFixed(r: seq<String>)
    ensures (forall k :: 0 <= k < |r| ==> Bare(r[k])) ==> forall k :: 0 <= k < |r| ==> Strip(r[k]) == r[k]
  {
    forall k | 0 <= k < |r| && Bare(r[k]) {
      StripBare(r[k]);
    }
  }

  /** When no piece holds the delimiter, no kept piece does. */
  lemma StrippedPiecesLack(pieces: seq<String>)
    ensures (forall j :: 0 <= j < |pieces| ==> !Contains(pieces[j], Delimiter)) ==>
      forall k :: 0 <= k < |StrippedPieces(pieces)| ==> !Contains(StrippedPieces(pieces)[k], Delimiter)
  {
    if forall j :: 0 <= j < |pieces| ==> !Contains(pieces[j], Delimiter) {
      var idx := StrippedPiecesOrigin(pieces);
      StripLacks(pieces, idx, StrippedPieces(pieces));
    }
  }

  /** Stripping a piece that lacks the delimiter leaves a piece that lacks it. */
  lemma StripLacks(pieces: seq<String>, idx: seq<nat>, r: seq<String>)
    requires |idx| == |r|
    requires forall k :: 0 <= k < |idx| ==> idx[k] < |pieces| && r[k] == Strip(pieces[idx[k]])
    requires forall j :: 0 <= j < |pieces| ==> !Contains(pieces[j], Delimiter)
    ensures forall k :: 0 <= k < |r| ==> !Contains(r[k], Delimiter)
  {
    forall k | 0 <= k < |r|
      ensures !Contains(r[k], Delimiter)
    {
      var p := pieces[idx[k]];
      if Lead(p) < |p| {
        ContainsWindow(p, Delimiter, Lead(p), Last(p));
      } else {
        assert r[k] == [];
      }
    }
  }

  /** A text that is all whitespace has no pieces. */
  lemma SplitTextBlank(text: String)
    requires AllSpace(text)
    ensures SplitText(text) == []
  {
    var pieces := Split(text, Delimiter);
    SplitChars(text, Delimiter);
    assert forall x :: x in text ==> IsSpace(x);
    forall j | 0 <= j < |pieces|
      ensures Strip(pieces[j]) == []
    {
      assert forall i :: 0 <= i < |pieces[j]| ==> pieces[j][i] in pieces[j];
      StripEmptyIffBlank(pieces[j]);
    }
    StrippedPiecesNone(pieces);
  }

  /** No piece with text, no kept piece. */
  lemma {:induction false} StrippedPiecesNone(pieces: seq<String>)
    ensures (forall j :: 0 <= j < |pieces| ==> Strip(pieces[j]) == []) ==> StrippedPieces(pieces) == []
    decreases |pieces|
  {
    if pieces != [] {
      var init := pieces[..|pieces| - 1];
      StrippedPiecesNone(init);
      assert forall j :: 0 <= j < |init| ==> init[j] == pieces[j];
    }
  }

  /** A text with no delimiter and some non-whitespace is one piece: itself,
      stripped. */
  lemma SplitTextSingle(text: String)
    requires !Contains(text, Delimiter) && !AllSpace(text)
    ensures SplitText(text) == [Strip(text)]
  {
    SplitAbsent(text, Delimiter);
    StripEmptyIffBlank(text);
    assert [text][..0] == [];
  }

  /** Splitting a piece of the result again gives just that piece. */
  lemma SplitTextPieceFixed(text: String, k: nat)
    requires k < |SplitText(text)|
    ensures SplitText(SplitText(text)[k]) == [SplitText(text)[k]]
  {
    var p := SplitText(text)[k];
    StripEmptyIffBlank(p);
    SplitTextSingle(p);
  }

  /** The kept pieces are the stripped pieces of the cut with text, in order. */
  lemma SplitTextPieces(text: String) returns (idx: seq<nat>)
    ensures |idx| == |SplitText(text)|
    ensures forall k :: 0 <= k < |idx| ==> idx[k] < |Split(text, Delimiter)| && SplitText(text)[k] == Strip(Split(text, Delimiter)[idx[k]])
    ensures Increasing(idx)
    ensures forall j :: 0 <= j < |Split(text, Delimiter)| && HasText(Split(text, Delimiter)[j]) ==> j in idx
  {
    idx := StrippedPiecesOrigin(Split(text, Delimiter));
  }
}
