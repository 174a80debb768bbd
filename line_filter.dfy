/**
 * The noise filter applied to each OCR text blob (`extract_text_by_color`,
 * randapp/views.py): split the text into lines, trim each line, and keep the
 * trimmed lines longer than one character, in order.
 */
module LineFilter {
  import opened Text

  /** The lines kept of `pieces`: each one stripped, those of more than one character, in order. */
  function Filtered(pieces: seq<string>): (lines: seq<string>)
    ensures |lines| <= |pieces|
    ensures forall j :: 0 <= j < |lines| ==> IsTrimmed(lines[j]) && |lines[j]| >= 2
  {
    if |pieces| == 0 then []
    else
      var cleaned := Strip(pieces[|pieces| - 1]);
      Filtered(pieces[..|pieces| - 1]) + (if |cleaned| > 1 then [cleaned] else [])
  }

  /** The positions of the pieces `Filtered` keeps, in increasing order. */
  function KeptPositions(pieces: seq<string>): (ps: seq<nat>)
    ensures |ps| == |Filtered(pieces)|
    ensures forall j :: 0 <= j < |ps| ==> ps[j] < |pieces|
    ensures forall j, j' :: 0 <= j < j' < |ps| ==> ps[j] < ps[j']
  {
    if |pieces| == 0 then []
    else
      var last := |pieces| - 1;
      KeptPositions(pieces[..last]) + (if |Strip(pieces[last])| > 1 then [last] else [])
  }

  /** The j-th kept line is the stripped piece at the j-th kept position. */
  lemma {:induction false} FilteredAt(pieces: seq<string>, j: nat)
    requires j < |Filtered(pieces)|
    ensures Filtered(pieces)[j] == Strip(pieces[KeptPositions(pieces)[j]])
  {
    var last := |pieces| - 1;
    var pre := pieces[..last];
    if j < |Filtered(pre)| {
      FilteredAt(pre, j);
      assert pre[KeptPositions(pre)[j]] == pieces[KeptPositions(pre)[j]];
    }
  }

  /** A position is kept exactly when its stripped piece is longer than one character. */
  lemma {:induction false} KeptExactly(pieces: seq<string>, i: nat)
    requires i < |pieces|
    ensures i in KeptPositions(pieces) <==> |Strip(pieces[i])| > 1
  {
    var last := |pieces| - 1;
    var pre := pieces[..last];
    if i < last {
      KeptExactly(pre, i);
      assert pre[i] == pieces[i];
      assert last !in KeptPositions(pre);
    }
  }

  /** `extract_text_by_color` after the OCR call: the text's lines, stripped, without noise lines. */
  method FilterLines(text: string) returns (lines: seq<string>)
    ensures lines == Filtered(Split(text, '\n'))
    ensures forall j :: 0 <= j < |lines| ==> IsTrimmed(lines[j]) && |lines[j]| >= 2
  {
    var pieces := Split(text, '\n');
    lines := [];
    var i := 0;
    while i < |pieces|
      invariant 0 <= i <= |pieces|
      invariant lines == Filtered(pieces[..i])
    {
      var cleaned := Strip(pieces[i]);
      if cleaned != [] && |cleaned| > 1 {
        lines := lines + [cleaned];
      }
      assert pieces[..i + 1][..i] == pieces[..i];
      i := i + 1;
    }
    assert pieces[..i] == pieces;
  }
}
