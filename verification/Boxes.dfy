/**
 OCR bounding boxes in millionths of the image: normalisation of a pixel rectangle, over the reals,
 and the union of boxes that makes a line box out of word boxes.
 */
module Boxes {
  import opened Wrappers
  import opened Execution

  const SCALE: nat := 1_000_000

  /** `OcrBoundingBox::is_valid`. */
  predicate IsValid(box: BoundingBox) {
    && box.widthPpm > 0 && box.heightPpm > 0
    && Right(box) <= SCALE && Bottom(box) <= SCALE
  }

  function Right(box: BoundingBox): nat {
    box.xPpm + box.widthPpm
  }

  function Bottom(box: BoundingBox): nat {
    box.yPpm + box.heightPpm
  }

  /** `f64::round` on values that are not negative: to the nearest integer, halves up. */
  function Round(x: real): int {
    (x + 0.5).Floor
  }

  function Clamp(x: real, low: real, high: real): real {
    if x < low then low else if x > high then high else x
  }

  /** The position of a pixel coordinate, in millionths of the image extent. */
  function Millionths(x: real, extent: nat): real
    requires extent > 0
  {
    Clamp(x, 0.0, extent as real) / extent as real * SCALE as real
  }

  /** `normalized_pixel_box`. */
  function NormalizedPixelBox(
    x: real, y: real, width: real, height: real, pixelWidth: nat, pixelHeight: nat)
    : Result<BoundingBox, ExtractionError>
  {
    if || pixelWidth == 0 || pixelHeight == 0
       || x < 0.0 || y < 0.0 || width <= 0.0 || height <= 0.0
       || x + width > pixelWidth as real || y + height > pixelHeight as real
    then Err(OcrOutputInvalid)
    else
      BoxOfEdges(Round(Millionths(x, pixelWidth)), Round(Millionths(y, pixelHeight)),
                 Round(Millionths(x + width, pixelWidth)),
                 Round(Millionths(y + height, pixelHeight)))
  }

  /** The box with the given edges, unless it is empty or leaves the image. */
  function BoxOfEdges(left: int, top: int, right: int, bottom: int)
    : Result<BoundingBox, ExtractionError>
  {
    if left < 0 || top < 0 || right > SCALE || bottom > SCALE then Err(OcrOutputInvalid)
    else if right <= left || bottom <= top then Err(OcrOutputInvalid)
    else Ok(BoundingBox(left, top, right - left, bottom - top))
  }

  predicate InsideImage(
    x: real, y: real, width: real, height: real, pixelWidth: nat, pixelHeight: nat)
  {
    && pixelWidth > 0 && pixelHeight > 0
    && x >= 0.0 && y >= 0.0 && width > 0.0 && height > 0.0
    && x + width <= pixelWidth as real && y + height <= pixelHeight as real
  }

  /** An edge is placed within half a millionth of its true position. */
  predicate NearlyAt(edge: nat, x: real, extent: nat)
    requires extent > 0
  {
    -0.5 <= edge as real - x / extent as real * SCALE as real <= 0.5
  }

  lemma EdgeFacts(x: real, extent: nat)
    requires extent > 0 && 0.0 <= x <= extent as real
    ensures 0 <= Round(Millionths(x, extent)) <= SCALE
    ensures NearlyAt(Round(Millionths(x, extent)), x, extent)
  {
    var ratio := x / extent as real;
    assert 0.0 <= ratio <= 1.0 by {
      assert ratio * extent as real == x;
      if ratio < 0.0 {
        NegativeProduct(ratio, extent as real);
      }
      if ratio > 1.0 {
        NegativeProduct(1.0 - ratio, extent as real);
      }
    }
  }

  lemma NegativeProduct(a: real, b: real)
    requires a < 0.0 && b > 0.0
    ensures a * b < 0.0
  {
  }

  /** Every box that normalisation returns is valid, and its four edges are within half a millionth
      of the edges of the rectangle; a rectangle is refused only when it is empty, leaves the image,
      or shrinks to nothing in rounding. */
  lemma NormalizationIsAccurate(
    x: real, y: real, width: real, height: real, pixelWidth: nat, pixelHeight: nat)
    ensures var box := NormalizedPixelBox(x, y, width, height, pixelWidth, pixelHeight);
            && (box.Ok?
                <==> InsideImage(x, y, width, height, pixelWidth, pixelHeight)
                     && Round(Millionths(x, pixelWidth)) < Round(Millionths(x + width, pixelWidth))
                     && Round(Millionths(y, pixelHeight))
                        < Round(Millionths(y + height, pixelHeight)))
            && (box.Ok? ==>
                  && IsValid(box.value)
                  && NearlyAt(box.value.xPpm, x, pixelWidth)
                  && NearlyAt(Right(box.value), x + width, pixelWidth)
                  && NearlyAt(box.value.yPpm, y, pixelHeight)
                  && NearlyAt(Bottom(box.value), y + height, pixelHeight))
  {
    hide NearlyAt, Millionths, Round;
    if InsideImage(x, y, width, height, pixelWidth, pixelHeight) {
      EdgeFacts(x, pixelWidth);
      EdgeFacts(x + width, pixelWidth);
      EdgeFacts(y, pixelHeight);
      EdgeFacts(y + height, pixelHeight);
    }
  }

  function Min(a: nat, b: nat): nat {
    if a < b then a else b
  }

  function Max(a: nat, b: nat): nat {
    if a > b then a else b
  }

  /** `union_boxes`. */
  function UnionBoxes(first: BoundingBox, second: BoundingBox)
    : Result<BoundingBox, ExtractionError>
  {
    BoxOfEdges(
      Min(first.xPpm, second.xPpm), Min(first.yPpm, second.yPpm),
      Max(Right(first), Right(second)), Max(Bottom(first), Bottom(second)))
  }

  predicate Contains(outer: BoundingBox, inner: BoundingBox) {
    && outer.xPpm <= inner.xPpm && Right(inner) <= Right(outer)
    && outer.yPpm <= inner.yPpm && Bottom(inner) <= Bottom(outer)
  }

  predicate ContainsAll(outer: BoundingBox, boxes: seq<BoundingBox>) {
    forall k :: 0 <= k < |boxes| ==> Contains(outer, boxes[k])
  }

  /** The least valid box around some boxes. */
  ghost predicate IsLeastAround(box: BoundingBox, boxes: seq<BoundingBox>) {
    && IsValid(box) && ContainsAll(box, boxes)
    && forall other :: ContainsAll(other, boxes) ==> Contains(other, box)
  }

  /** The union of two valid boxes never fails, and it is the least box around both. */
  lemma UnionIsLeast(first: BoundingBox, second: BoundingBox)
    requires IsValid(first) && IsValid(second)
    ensures UnionBoxes(first, second).Ok?
    ensures IsLeastAround(UnionBoxes(first, second).value, [first, second])
  {
    var union := UnionBoxes(first, second).value;
    forall other | ContainsAll(other, [first, second]) ensures Contains(other, union) {
      assert Contains(other, [first, second][0]) && Contains(other, [first, second][1]);
    }
  }

  /** The line box: the union of the word boxes, taken one after another. Folding never fails on
      valid words, and the result depends on nothing but which boxes there are. */
  method LineBox(words: seq<BoundingBox>) returns (line: Result<BoundingBox, ExtractionError>)
    requires forall k :: 0 <= k < |words| ==> IsValid(words[k])
    ensures words == [] ==> line == Err(OcrOutputInvalid)
    ensures words != [] ==> line.Ok? && IsLeastAround(line.value, words)
  {
    hide IsValid, Contains, UnionBoxes;
    var current: Option<BoundingBox> := None;
    for next := 0 to |words|
      invariant next == 0 <==> current.None?
      invariant current.Some? ==> IsLeastAround(current.value, words[..next])
    {
      if current.Some? {
        UnionIsLeast(current.value, words[next]);
        var wider := UnionBoxes(current.value, words[next]);
        LeastAroundOneMore(current.value, words, next, wider.value);
        current := Some(wider.value);
      } else {
        LeastAroundOne(words);
        current := Some(words[next]);
      }
    }
    assert words[..|words|] == words;
    return if current.Some? then Ok(current.value) else Err(OcrOutputInvalid);
  }

  lemma LeastAroundOne(words: seq<BoundingBox>)
    requires words != [] && IsValid(words[0])
    ensures IsLeastAround(words[0], words[..1])
  {
    forall other | ContainsAll(other, words[..1]) ensures Contains(other, words[0]) {
      assert words[..1][0] == words[0];
    }
  }

  lemma LeastAroundOneMore(
    current: BoundingBox, words: seq<BoundingBox>, next: nat, wider: BoundingBox)
    requires next < |words| && IsLeastAround(current, words[..next])
    requires IsLeastAround(wider, [current, words[next]])
    ensures IsLeastAround(wider, words[..next + 1])
  {
    hide IsValid;
    var more := words[..next + 1];
    assert Contains(wider, [current, words[next]][0]) && Contains(wider, [current, words[next]][1]);
    forall k | 0 <= k < |more| ensures Contains(wider, more[k]) {
      if k < next {
        assert Contains(current, words[..next][k]);
      }
    }
    forall other | ContainsAll(other, more) ensures Contains(other, wider) {
      assert Contains(other, more[next]);
      forall k | 0 <= k < next ensures Contains(other, words[..next][k]) {
        assert Contains(other, more[k]);
      }
      assert ContainsAll(other, words[..next]);
      assert ContainsAll(other, [current, words[next]]);
    }
  }

  /** Two lines with the same word boxes have the same line box, whatever the order. */
  lemma LineBoxIgnoresOrder(
    words: seq<BoundingBox>, shuffled: seq<BoundingBox>, box: BoundingBox, other: BoundingBox)
    requires forall word :: word in words <==> word in shuffled
    requires IsLeastAround(box, words) && IsLeastAround(other, shuffled)
    ensures box == other
  {
    SameWords(words, shuffled, box);
    SameWords(shuffled, words, other);
    assert Contains(box, other) && Contains(other, box);
  }

  lemma SameWords(words: seq<BoundingBox>, shuffled: seq<BoundingBox>, box: BoundingBox)
    requires forall word :: word in shuffled ==> word in words
    requires ContainsAll(box, words)
    ensures ContainsAll(box, shuffled)
  {
    forall k | 0 <= k < |shuffled| ensures Contains(box, shuffled[k]) {
      assert shuffled[k] in words;
    }
  }
}
