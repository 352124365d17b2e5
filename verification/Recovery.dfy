/**
 Units recovered from their pieces. A piece carries its unit's mark and its own index within the unit,
 and overlaps the next piece of the same unit by what a step back from its end gives; so the pieces of
 a list of units determine which units there are that have any text, and their texts.
 */
module Recovery {
  import opened Utf8
  import opened Execution
  import opened Chunking
  import opened Units

  function FragmentIndex(provenance: Provenance): nat {
    match provenance
    case ByteRange(_, _) => 0
    case PdfPage(_, index) => index
    case DocxParagraph(_, index) => index
    case XlsxCell(_, _, index) => index
    case OcrObservation(_, index, _, _) => index
  }

  function WithIndex(provenance: Provenance, index: nat): Provenance {
    match provenance
    case ByteRange(_, _) => provenance
    case PdfPage(page, _) => PdfPage(page, index)
    case DocxParagraph(number, _) => DocxParagraph(number, index)
    case XlsxCell(sheet, reference, _) => XlsxCell(sheet, reference, index)
    case OcrObservation(number, _, box, confidence) =>
      OcrObservation(number, index, box, confidence)
  }

  /** What a label says of the unit, whatever the piece. */
  function MarkOf(name: Label): Provenance {
    name(Range(0, 0), 0)
  }

  /** A label that says of a piece which one it is within its unit, and nothing else. */
  ghost predicate Indexed(name: Label) {
    forall r: Range, index: nat ::
      FragmentIndex(name(r, index)) == index && name(r, index) == WithIndex(MarkOf(name), index)
  }

  ghost predicate AllIndexed(units: seq<Unit>) {
    forall u :: 0 <= u < |units| ==> units[u].Unit? && Indexed(units[u].name)
  }

  /** A unit that has some text. */
  datatype Marked = Marked(mark: Provenance, text: Bytes)

  function MarkedUnits(units: seq<Unit>): seq<Marked> {
    if units == [] then []
    else
      (if units[0].Unit? && units[0].content != [] then
         [Marked(MarkOf(units[0].name), units[0].content)]
       else [])
      + MarkedUnits(units[1..])
  }

  predicate StartsUnit(pieces: seq<Step>) {
    pieces == [] || (pieces[0].Piece? && FragmentIndex(pieces[0].provenance) == 0)
  }

  /** The part of a piece that the next piece of its unit does not repeat. */
  function Share(text: Bytes, overlap: nat): Bytes {
    Take(text, NextOf(text, 0, |text|, overlap))
  }

  /** The units from which pieces were cut. */
  function Recover(pieces: seq<Step>, overlap: nat): seq<Marked> {
    if pieces == [] || !pieces[0].Piece? then []
    else
      var mark, text := WithIndex(pieces[0].provenance, 0), pieces[0].text;
      var rest := Recover(pieces[1..], overlap);
      if StartsUnit(pieces[1..]) || rest == [] then [Marked(mark, text)] + rest
      else [Marked(mark, Share(text, overlap) + rest[0].text)] + rest[1..]
  }

  /** The step back to a boundary sees only the chunk it steps back into. */
  lemma {:induction false} AlignDownInChunk(s: Bytes, start: nat, end: nat, from: nat)
    requires start <= from <= end <= |s| && IsBoundary(s, start) && IsBoundary(s, end)
    ensures AlignDown(s, start, from) == start + AlignDown(s[start..end], 0, from - start)
    decreases from
  {
    if from > start && from < end {
      assert s[start..end][from - start] == s[from];
    }
    if from > start && !IsBoundary(s, from) {
      AlignDownInChunk(s, start, end, from - 1);
    }
  }

  lemma NextInChunk(s: Bytes, start: nat, end: nat, overlap: nat)
    requires start < end <= |s| && IsBoundary(s, start) && IsBoundary(s, end)
    ensures NextOf(s, start, end, overlap) == start + NextOf(s[start..end], 0, end - start, overlap)
  {
    hide IsBoundary, AlignDown;
    if end >= start + overlap {
      AlignDownInChunk(s, start, end, end - overlap);
    } else {
      NoStepBack(s, start, if end >= overlap then end - overlap else 0);
      NoStepBack(s[start..end], 0, 0);
    }
  }

  lemma NoStepBack(s: Bytes, start: nat, from: nat)
    requires from <= start
    ensures AlignDown(s, start, from) == from
  {
  }

  lemma LastPiece(piece: Step, rest: seq<Step>, overlap: nat)
    requires piece.Piece? && StartsUnit(rest)
    ensures Recover([piece] + rest, overlap)
         == [Marked(WithIndex(piece.provenance, 0), piece.text)] + Recover(rest, overlap)
  {
    hide StartsUnit, WithIndex;
    assert ([piece] + rest)[1..] == rest;
  }

  lemma EarlierPiece(piece: Step, rest: seq<Step>, next: Marked, others: seq<Marked>, overlap: nat)
    requires piece.Piece? && !StartsUnit(rest) && Recover(rest, overlap) == [next] + others
    ensures Recover([piece] + rest, overlap)
         == [Marked(WithIndex(piece.provenance, 0), Share(piece.text, overlap) + next.text)] + others
  {
    hide StartsUnit, WithIndex, Share;
    assert ([piece] + rest)[1..] == rest;
  }

  lemma LaterPiece(piece: Step, rest: seq<Step>)
    requires piece.Piece? && FragmentIndex(piece.provenance) > 0
    ensures !StartsUnit([piece] + rest)
  {
  }

  /** One piece of a unit and the remaining ones. */
  lemma OnePiece(s: Bytes, start: nat, index: nat, limits: Limits, name: Label)
    requires Valid(s) && start < |s| && IsBoundary(s, start) && limits.maxChunkBytes >= 4
    ensures var end := EndOf(s, start, limits.maxChunkBytes);
            var next := NextOf(s, start, end, limits.chunkOverlapBytes);
            && start < next <= end <= |s| && IsBoundary(s, next) && IsBoundary(s, end)
            && Pieces(s, start, index, limits, name)
               == [Piece(s[start..end], name(Range(start, end), index))]
                  + if end == |s| then [] else Pieces(s, next, index + 1, limits, name)
  {
    hide ValidFrom, EndOf, NextOf;
    StepFacts(s, start, limits.maxChunkBytes, limits.chunkOverlapBytes);
  }

  lemma ShareIs(s: Bytes, start: nat, end: nat, overlap: nat)
    requires start < end <= |s| && IsBoundary(s, start) && IsBoundary(s, end)
    requires start < NextOf(s, start, end, overlap) <= end
    ensures Share(s[start..end], overlap) + s[NextOf(s, start, end, overlap)..] == s[start..]
  {
    hide NextOf, IsBoundary;
    NextInChunk(s, start, end, overlap);
  }

  lemma MarkIs(name: Label, r: Range, index: nat)
    requires Indexed(name)
    ensures WithIndex(name(r, index), 0) == MarkOf(name)
    ensures FragmentIndex(name(r, index)) == index
  {
    assert MarkOf(name) == WithIndex(MarkOf(name), 0);
  }

  lemma {:induction false} RecoverPieces(
    s: Bytes, start: nat, index: nat, limits: Limits, name: Label, rest: seq<Step>)
    requires Valid(s) && start < |s| && IsBoundary(s, start) && limits.maxChunkBytes >= 4
    requires Indexed(name) && StartsUnit(rest)
    ensures Recover(Pieces(s, start, index, limits, name) + rest, limits.chunkOverlapBytes)
         == [Marked(MarkOf(name), s[start..])] + Recover(rest, limits.chunkOverlapBytes)
    ensures index > 0 ==> !StartsUnit(Pieces(s, start, index, limits, name) + rest)
    decreases |s| - start
  {
    hide ValidFrom, IsBoundary, EndOf, NextOf, Indexed, StartsUnit, Recover, MarkOf, WithIndex,
         FragmentIndex, Pieces, Share;
    var overlap := limits.chunkOverlapBytes;
    var end := EndOf(s, start, limits.maxChunkBytes);
    var next := NextOf(s, start, end, overlap);
    OnePiece(s, start, index, limits, name);
    MarkIs(name, Range(start, end), index);
    var piece := Piece(s[start..end], name(Range(start, end), index));
    if end == |s| {
      assert Pieces(s, start, index, limits, name) + rest == [piece] + rest;
      LastPiece(piece, rest, overlap);
      assert s[start..end] == s[start..];
      if index > 0 {
        LaterPiece(piece, rest);
      }
    } else {
      var more := Pieces(s, next, index + 1, limits, name);
      assert Pieces(s, start, index, limits, name) + rest == [piece] + (more + rest);
      RecoverPieces(s, next, index + 1, limits, name, rest);
      EarlierPiece(piece, more + rest, Marked(MarkOf(name), s[next..]), Recover(rest, overlap),
                   overlap);
      ShareIs(s, start, end, overlap);
      if index > 0 {
        LaterPiece(piece, more + rest);
      }
    }
  }

  lemma FirstPiece(s: Bytes, limits: Limits, name: Label, rest: seq<Step>)
    requires Valid(s) && limits.maxChunkBytes >= 4 && Indexed(name) && StartsUnit(rest)
    ensures StartsUnit(UnitPieces(s, limits, name) + rest)
    ensures s == [] ==> UnitPieces(s, limits, name) == []
  {
    hide ValidFrom, EndOf, NextOf, Indexed, FragmentIndex;
    if s != [] {
      OnePiece(s, 0, 0, limits, name);
      MarkIs(name, Range(0, EndOf(s, 0, limits.maxChunkBytes)), 0);
    }
  }

  /** The pieces of a list of units tell which units have any text, and their texts, overlaps
      notwithstanding. */
  lemma {:induction false} PiecesTellUnits(units: seq<Unit>, limits: Limits)
    requires limits.maxChunkBytes >= 4 && AllIndexed(units)
    ensures Recover(AllPieces(units, limits), limits.chunkOverlapBytes) == MarkedUnits(units)
    ensures StartsUnit(AllPieces(units, limits))
    decreases |units|
  {
    hide ValidFrom, Pieces, Recover, StartsUnit, Indexed, MarkOf;
    if units == [] {
      NothingRecovered(limits.chunkOverlapBytes);
    } else {
      var unit, rest := units[0], AllPieces(units[1..], limits);
      PiecesTellUnits(units[1..], limits);
      FirstPiece(unit.content, limits, unit.name, rest);
      if unit.content == [] {
        assert [] + rest == rest && [] + MarkedUnits(units[1..]) == MarkedUnits(units[1..]);
      } else {
        RecoverPieces(unit.content, 0, 0, limits, unit.name, rest);
        assert unit.content[0..] == unit.content;
      }
    }
  }

  lemma NothingRecovered(overlap: nat)
    ensures Recover([], overlap) == [] && StartsUnit([])
  {
  }

  // Conversely the units with any text tell the pieces.

  function LabelAt(mark: Provenance): Label {
    (r: Range, index: nat) => WithIndex(mark, index)
  }

  predicate AllText(units: seq<Marked>) {
    forall u :: 0 <= u < |units| ==> Valid(units[u].text)
  }

  function PiecesOfMarked(units: seq<Marked>, limits: Limits): seq<Step>
    requires limits.maxChunkBytes >= 4 && AllText(units)
  {
    if units == [] then []
    else
      UnitPieces(units[0].text, limits, LabelAt(units[0].mark))
      + PiecesOfMarked(units[1..], limits)
  }

  lemma {:induction false} SameLabel(
    s: Bytes, start: nat, index: nat, limits: Limits, name: Label)
    requires Valid(s) && start <= |s| && IsBoundary(s, start) && limits.maxChunkBytes >= 4
    requires Indexed(name)
    ensures Pieces(s, start, index, limits, name)
         == Pieces(s, start, index, limits, LabelAt(MarkOf(name)))
    decreases |s| - start
  {
    hide ValidFrom, IsBoundary, EndOf, NextOf, MarkOf, WithIndex, FragmentIndex;
    if start < |s| {
      OnePiece(s, start, index, limits, name);
      OnePiece(s, start, index, limits, LabelAt(MarkOf(name)));
      var end := EndOf(s, start, limits.maxChunkBytes);
      var r := Range(start, end);
      assert name(r, index) == WithIndex(MarkOf(name), index);
      if end < |s| {
        SameLabel(s, NextOf(s, start, end, limits.chunkOverlapBytes), index + 1, limits, name);
      }
    }
  }

  lemma {:induction false} PiecesFromMarked(units: seq<Unit>, limits: Limits)
    requires limits.maxChunkBytes >= 4 && AllIndexed(units)
    ensures AllText(MarkedUnits(units))
    ensures AllPieces(units, limits) == PiecesOfMarked(MarkedUnits(units), limits)
    decreases |units|
  {
    hide ValidFrom, Pieces, Indexed, MarkOf;
    if units != [] {
      var unit, more := units[0], MarkedUnits(units[1..]);
      PiecesFromMarked(units[1..], limits);
      SameLabel(unit.content, 0, 0, limits, unit.name);
      if unit.content == [] {
        FirstPiece(unit.content, limits, unit.name, []);
        assert [] + more == more;
        assert [] + AllPieces(units[1..], limits) == AllPieces(units[1..], limits);
      } else {
        assert ([Marked(MarkOf(unit.name), unit.content)] + more)[1..] == more;
      }
    }
  }

  /** Two lists of units have the same pieces if and only if they have the same units with any text. */
  lemma SamePiecesIff(a: seq<Unit>, b: seq<Unit>, limits: Limits)
    requires limits.maxChunkBytes >= 4 && AllIndexed(a) && AllIndexed(b)
    ensures AllPieces(a, limits) == AllPieces(b, limits) <==> MarkedUnits(a) == MarkedUnits(b)
  {
    hide ValidFrom, AllPieces, Recover, PiecesOfMarked, Indexed, MarkedUnits;
    PiecesTellUnits(a, limits);
    PiecesTellUnits(b, limits);
    PiecesFromMarked(a, limits);
    PiecesFromMarked(b, limits);
  }

  function TotalText(units: seq<Unit>): nat {
    if units == [] then 0
    else (if units[0].Unit? then |units[0].content| else 0) + TotalText(units[1..])
  }

  function TotalMarked(units: seq<Marked>): nat {
    if units == [] then 0 else |units[0].text| + TotalMarked(units[1..])
  }

  lemma {:induction false} MarkedLength(units: seq<Unit>)
    ensures TotalMarked(MarkedUnits(units)) == TotalText(units)
    decreases |units|
  {
    hide MarkOf;
    if units != [] {
      MarkedLength(units[1..]);
      var more := MarkedUnits(units[1..]);
      if units[0].Unit? && units[0].content != [] {
        assert ([Marked(MarkOf(units[0].name), units[0].content)] + more)[1..] == more;
      } else {
        assert [] + more == more;
      }
    }
  }

  /** In particular lists of units with the same pieces have the same amount of text. */
  lemma SamePiecesSameLength(a: seq<Unit>, b: seq<Unit>, limits: Limits)
    requires limits.maxChunkBytes >= 4 && AllIndexed(a) && AllIndexed(b)
    requires AllPieces(a, limits) == AllPieces(b, limits)
    ensures TotalText(a) == TotalText(b)
  {
    hide AllPieces, MarkedUnits, Indexed, TotalText, TotalMarked;
    SamePiecesIff(a, b, limits);
    MarkedLength(a);
    MarkedLength(b);
  }

  // Pieces without the loop.

  /** The pieces of a text: those of its ranges, in order, each with its index. */
  function TextFragments(unit: Marked, limits: Limits): seq<Step>
    requires limits.maxChunkBytes >= 4 && Valid(unit.text)
  {
    var rs := Ranges(unit.text, 0, limits.maxChunkBytes, limits.chunkOverlapBytes);
    RangesCover(unit.text, 0, limits.maxChunkBytes, limits.chunkOverlapBytes);
    assert forall k :: 0 <= k < |rs| ==> Sound(unit.text, rs[k], limits.maxChunkBytes);
    seq(|rs|, k requires 0 <= k < |rs| =>
      Piece(unit.text[rs[k].start..rs[k].end], WithIndex(unit.mark, k)))
  }

  function Fragments(units: seq<Marked>, limits: Limits): seq<Step>
    requires limits.maxChunkBytes >= 4 && AllText(units)
  {
    if units == [] then [] else TextFragments(units[0], limits) + Fragments(units[1..], limits)
  }

  lemma UnitIsFragments(unit: Marked, limits: Limits)
    requires limits.maxChunkBytes >= 4 && Valid(unit.text)
    ensures UnitPieces(unit.text, limits, LabelAt(unit.mark)) == TextFragments(unit, limits)
  {
    hide ValidFrom, Pieces, Ranges, WithIndex;
    var name := LabelAt(unit.mark);
    var rs := Ranges(unit.text, 0, limits.maxChunkBytes, limits.chunkOverlapBytes);
    var pieces, fragments := UnitPieces(unit.text, limits, name), TextFragments(unit, limits);
    PiecesAreRanges(unit.text, 0, 0, limits, name);
    forall k | 0 <= k < |rs| ensures pieces[k] == fragments[k] {
      assert IsFragment(unit.text, rs[k], k, name, pieces[k]);
    }
  }

  lemma {:induction false} MarkedAreFragments(units: seq<Marked>, limits: Limits)
    requires limits.maxChunkBytes >= 4 && AllText(units)
    ensures PiecesOfMarked(units, limits) == Fragments(units, limits)
    decreases |units|
  {
    hide ValidFrom, UnitPieces, TextFragments;
    if units != [] {
      UnitIsFragments(units[0], limits);
      MarkedAreFragments(units[1..], limits);
    }
  }

  /** The pieces of a list of units are the fragments of the texts that are not empty. */
  lemma PiecesAreFragments(units: seq<Unit>, limits: Limits)
    requires limits.maxChunkBytes >= 4 && AllIndexed(units)
    ensures AllText(MarkedUnits(units))
    ensures AllPieces(units, limits) == Fragments(MarkedUnits(units), limits)
  {
    hide ValidFrom, AllPieces, MarkedUnits, Fragments, PiecesOfMarked, Indexed;
    PiecesFromMarked(units, limits);
    MarkedAreFragments(MarkedUnits(units), limits);
  }
}
