/**
 UTF-8 text as bytes: the well-formedness of section 4 of RFC 3629, the character
 boundaries that `str::is_char_boundary` reports, and the step back to a boundary that
 every chunk loop and the response truncation perform.
 */
module Utf8 {
  newtype byte = x: int | 0 <= x < 256

  type Bytes = seq<byte>

  predicate Tail(b: byte) {
    0x80 <= b <= 0xBF
  }

  /** Width of the well-formed character at position `i`, 0 when there is none. */
  function WidthAt(s: Bytes, i: nat): (w: nat)
    ensures w <= 4 && (w > 0 ==> i + w <= |s| && !Tail(s[i]))
    ensures w > 1 ==> Tail(s[i + 1])
    ensures w > 2 ==> Tail(s[i + 2])
    ensures w > 3 ==> Tail(s[i + 3])
  {
    if i + 1 <= |s| && s[i] <= 0x7F then 1
    else if i + 2 <= |s| && 0xC2 <= s[i] <= 0xDF && Tail(s[i + 1]) then 2
    else if i + 3 <= |s| && ThreeByteLead(s[i], s[i + 1]) && Tail(s[i + 2]) then 3
    else if i + 4 <= |s| && FourByteLead(s[i], s[i + 1]) && Tail(s[i + 2]) && Tail(s[i + 3]) then 4
    else 0
  }

  predicate ThreeByteLead(first: byte, second: byte)
    ensures ThreeByteLead(first, second) ==> !Tail(first) && Tail(second)
  {
    || (first == 0xE0 && 0xA0 <= second <= 0xBF)
    || (0xE1 <= first <= 0xEC && Tail(second))
    || (first == 0xED && 0x80 <= second <= 0x9F)
    || (0xEE <= first <= 0xEF && Tail(second))
  }

  predicate FourByteLead(first: byte, second: byte)
    ensures FourByteLead(first, second) ==> !Tail(first) && Tail(second)
  {
    || (first == 0xF0 && 0x90 <= second <= 0xBF)
    || (0xF1 <= first <= 0xF3 && Tail(second))
    || (first == 0xF4 && 0x80 <= second <= 0x8F)
  }

  /** The bytes from position `i` on are a sequence of well-formed characters. */
  predicate ValidFrom(s: Bytes, i: nat)
    decreases |s| - i
  {
    i == |s| || (WidthAt(s, i) > 0 && ValidFrom(s, i + WidthAt(s, i)))
  }

  predicate Valid(s: Bytes) {
    ValidFrom(s, 0)
  }

  type Text = s: Bytes | Valid(s) witness []

  const NO_TEXT: Text := []

  /** `str::is_char_boundary`: the ends of the text, and every byte that is not a tail byte. */
  predicate IsBoundary(s: Bytes, i: nat) {
    i == 0 || i == |s| || (i < |s| && !Tail(s[i]))
  }

  /** Every boundary of well-formed text is the start of one of its characters, or its end. */
  lemma {:induction false} ValidFromBoundary(s: Bytes, i: nat, j: nat)
    requires ValidFrom(s, i) && i <= j <= |s| && IsBoundary(s, j)
    ensures ValidFrom(s, j)
    decreases |s| - i
  {
    if i < j {
      ValidFromBoundary(s, i + WidthAt(s, i), j);
    }
  }

  /** The text after a boundary is again well-formed. */
  lemma SuffixValid(s: Bytes, i: nat)
    requires Valid(s) && i <= |s| && IsBoundary(s, i)
    ensures Valid(s[i..])
  {
    ValidFromBoundary(s, 0, i);
    ShiftValid(s, i, i);
  }

  lemma {:induction false} ShiftValid(s: Bytes, base: nat, i: nat)
    requires base <= i <= |s| && ValidFrom(s, i)
    ensures ValidFrom(s[base..], i - base)
    decreases |s| - i
  {
    if i < |s| {
      var w := WidthAt(s, i);
      assert WidthAt(s[base..], i - base) == w;
      ShiftValid(s, base, i + w);
    }
  }

  /** The text before a boundary is again well-formed. */
  lemma PrefixValid(s: Bytes, j: nat)
    requires Valid(s) && j <= |s| && IsBoundary(s, j)
    ensures Valid(s[..j])
  {
    CutValid(s, 0, j);
  }

  lemma {:induction false} CutValid(s: Bytes, i: nat, j: nat)
    requires i <= j <= |s| && ValidFrom(s, i) && IsBoundary(s, j)
    ensures ValidFrom(s[..j], i)
    decreases |s| - i
  {
    if i < j {
      var w := WidthAt(s, i);
      assert i + w <= j;
      assert WidthAt(s[..j], i) == w;
      CutValid(s, i + w, j);
    }
  }

  /** Any stretch between two boundaries is well-formed text of its own. */
  lemma SliceValid(s: Bytes, i: nat, j: nat)
    requires Valid(s) && i <= j <= |s| && IsBoundary(s, i) && IsBoundary(s, j)
    ensures Valid(s[i..j])
  {
    PrefixValid(s, j);
    SuffixValid(s[..j], i);
  }

  lemma ConcatValid(a: Bytes, b: Bytes)
    requires Valid(a) && Valid(b)
    ensures Valid(a + b)
  {
    JoinValid(a, b, |a|);
    PrependValid(a, b, 0);
  }

  lemma {:induction false} JoinValid(a: Bytes, b: Bytes, i: nat)
    requires |a| <= i <= |a| + |b| && ValidFrom(b, i - |a|)
    ensures ValidFrom(a + b, i)
    decreases |a| + |b| - i
  {
    if i < |a| + |b| {
      var w := WidthAt(b, i - |a|);
      assert WidthAt(a + b, i) == w;
      JoinValid(a, b, i + w);
    }
  }

  lemma {:induction false} PrependValid(a: Bytes, b: Bytes, i: nat)
    requires i <= |a| && ValidFrom(a, i) && ValidFrom(a + b, |a|)
    ensures ValidFrom(a + b, i)
    decreases |a| - i
  {
    if i < |a| {
      var w := WidthAt(a, i);
      assert WidthAt(a + b, i) == w;
      PrependValid(a, b, i + w);
    }
  }

  /** From any boundary before the end there is another one at most four bytes on. */
  lemma NextBoundary(s: Bytes, i: nat) returns (j: nat)
    requires Valid(s) && i < |s| && IsBoundary(s, i)
    ensures i < j <= i + 4 && j <= |s| && IsBoundary(s, j)
  {
    ValidFromBoundary(s, 0, i);
    j := i + WidthAt(s, i);
    assert ValidFrom(s, j);
  }

  /** Steps back from `from` to a boundary, but not below `floor`. */
  function AlignDown(s: Bytes, floor: nat, from: nat): nat
    decreases from
  {
    if from > floor && !IsBoundary(s, from) then AlignDown(s, floor, from - 1) else from
  }

  /** The step back finds the last boundary in the interval. */
  lemma {:induction false} AlignDownIsLast(s: Bytes, floor: nat, from: nat)
    requires floor <= from <= |s| && IsBoundary(s, floor)
    ensures floor <= AlignDown(s, floor, from) <= from
    ensures IsBoundary(s, AlignDown(s, floor, from))
    ensures forall j :: AlignDown(s, floor, from) < j <= from ==> !IsBoundary(s, j)
    decreases from
  {
    if from > floor && !IsBoundary(s, from) {
      AlignDownIsLast(s, floor, from - 1);
    }
  }

  /** In well-formed text the step back passes at most three bytes. */
  lemma AlignDownIsShort(s: Bytes, floor: nat, from: nat)
    requires Valid(s) && floor <= from <= |s| && IsBoundary(s, floor)
    ensures from - AlignDown(s, floor, from) <= 3
  {
    AlignDownIsLast(s, floor, from);
    var found := AlignDown(s, floor, from);
    if found + 4 <= from {
      var next := NextBoundary(s, found);
    }
  }

  /** The scalar values a Rust `char` can hold. */
  predicate IsScalar(c: nat) {
    c < 0xD800 || 0xE000 <= c < 0x11_0000
  }

  /** `String::push`: the bytes of one character, by the table in section 3 of RFC 3629. */
  function Encode(c: nat): (bytes: Bytes)
    requires IsScalar(c)
    ensures 1 <= |bytes| <= 4 && WidthAt(bytes, 0) == |bytes|
  {
    if c < 0x80 then [c as byte]
    else
      var high := c / 0x40;
      var last := TailOf(c % 0x40);
      if c < 0x800 then [(0xC0 + high) as byte, last]
      else
        var top := high / 0x40;
        var middle := TailOf(high % 0x40);
        if c < 0x1_0000 then [(0xE0 + top) as byte, middle, last]
        else [(0xF0 + top / 0x40) as byte, TailOf(top % 0x40), middle, last]
  }

  function TailOf(sixBits: nat): byte
    requires sixBits < 0x40
  {
    (0x80 + sixBits) as byte
  }

  lemma EncodeValid(c: nat)
    requires IsScalar(c)
    ensures Valid(Encode(c))
  {
    var bytes := Encode(c);
    assert ValidFrom(bytes, |bytes|);
  }

  /** The number of the character whose bytes these are. */
  function ScalarOf(bytes: Bytes): nat
    requires WidthAt(bytes, 0) == |bytes| > 0
  {
    var first := bytes[0] as nat;
    if |bytes| == 1 then first
    else if |bytes| == 2 then 0x40 * (first - 0xC0) + SixBits(bytes[1])
    else if |bytes| == 3 then
      0x1000 * (first - 0xE0) + 0x40 * SixBits(bytes[1]) + SixBits(bytes[2])
    else
      0x4_0000 * (first - 0xF0) + 0x1000 * SixBits(bytes[1]) + 0x40 * SixBits(bytes[2])
      + SixBits(bytes[3])
  }

  function SixBits(b: byte): nat
    requires Tail(b)
  {
    (b - 0x80) as nat
  }

  /** Every character is read back from its bytes. */
  lemma CharacterRoundTrip(c: nat)
    requires IsScalar(c)
    ensures ScalarOf(Encode(c)) == c
  {
  }

  /** Whatever counts as the bytes of one character are those of a character. */
  lemma BytesRoundTrip(bytes: Bytes)
    requires WidthAt(bytes, 0) == |bytes| > 0
    ensures IsScalar(ScalarOf(bytes)) && Encode(ScalarOf(bytes)) == bytes
  {
    WidthIs(bytes);
    if |bytes| == 1 {
    } else if |bytes| == 2 {
      TwoRoundTrip(bytes);
    } else if |bytes| == 3 {
      ThreeRoundTrip(bytes);
    } else {
      FourRoundTrip(bytes);
    }
  }

  lemma TwoRoundTrip(bytes: Bytes)
    requires WidthAt(bytes, 0) == |bytes| == 2
    ensures IsScalar(ScalarOf(bytes)) && Encode(ScalarOf(bytes)) == bytes
  {
    WidthIs(bytes);
    hide WidthAt;
    LastSixBits((bytes[0] - 0xC0) as nat, bytes[1]);
  }

  lemma ThreeRoundTrip(bytes: Bytes)
    requires WidthAt(bytes, 0) == |bytes| == 3
    ensures IsScalar(ScalarOf(bytes)) && Encode(ScalarOf(bytes)) == bytes
  {
    WidthIs(bytes);
    hide WidthAt;
    var high := 0x40 * (bytes[0] - 0xE0) as nat + SixBits(bytes[1]);
    LastSixBits((bytes[0] - 0xE0) as nat, bytes[1]);
    LastSixBits(high, bytes[2]);
    assert ScalarOf(bytes) == 0x40 * high + SixBits(bytes[2]);
  }

  lemma FourRoundTrip(bytes: Bytes)
    requires WidthAt(bytes, 0) == |bytes| == 4
    ensures IsScalar(ScalarOf(bytes)) && Encode(ScalarOf(bytes)) == bytes
  {
    WidthIs(bytes);
    hide WidthAt;
    var top := 0x40 * (bytes[0] - 0xF0) as nat + SixBits(bytes[1]);
    var high := 0x40 * top + SixBits(bytes[2]);
    LastSixBits((bytes[0] - 0xF0) as nat, bytes[1]);
    LastSixBits(top, bytes[2]);
    LastSixBits(high, bytes[3]);
    assert ScalarOf(bytes) == 0x40 * high + SixBits(bytes[3]);
  }

  /** What the first bytes of a character may be, by its width. */
  lemma WidthIs(bytes: Bytes)
    requires WidthAt(bytes, 0) == |bytes| > 0
    ensures |bytes| <= 4
    ensures |bytes| == 1 ==> bytes[0] <= 0x7F
    ensures |bytes| == 2 ==> 0xC2 <= bytes[0] <= 0xDF
    ensures |bytes| == 3 ==> 0xE0 <= bytes[0] <= 0xEF && (bytes[0] == 0xE0 ==> bytes[1] >= 0xA0)
                             && (bytes[0] == 0xED ==> bytes[1] <= 0x9F)
    ensures |bytes| == 4 ==> 0xF0 <= bytes[0] <= 0xF4 && (bytes[0] == 0xF0 ==> bytes[1] >= 0x90)
                             && (bytes[0] == 0xF4 ==> bytes[1] <= 0x8F)
    ensures forall k :: 0 < k < |bytes| ==> Tail(bytes[k])
  {
  }

  lemma LastSixBits(high: nat, last: byte)
    requires Tail(last)
    ensures var c := 0x40 * high + SixBits(last);
            c / 0x40 == high && c % 0x40 == SixBits(last) && TailOf(c % 0x40) == last
  {
  }

  predicate AllScalars(cs: seq<nat>) {
    forall k :: 0 <= k < |cs| ==> IsScalar(cs[k])
  }

  function EncodeAll(cs: seq<nat>): Bytes
    requires AllScalars(cs)
  {
    if cs == [] then [] else Encode(cs[0]) + EncodeAll(cs[1..])
  }

  lemma {:induction false} EncodeAllValid(cs: seq<nat>)
    requires AllScalars(cs)
    ensures Valid(EncodeAll(cs))
    decreases |cs|
  {
    hide Encode, ValidFrom;
    if cs == [] {
      NothingIsValid();
    } else {
      EncodeValid(cs[0]);
      EncodeAllValid(cs[1..]);
      ConcatValid(Encode(cs[0]), EncodeAll(cs[1..]));
    }
  }

  lemma NothingIsValid()
    ensures Valid([])
  {
  }

  lemma {:induction false} ValidIsEncoded(s: Bytes) returns (cs: seq<nat>)
    requires Valid(s)
    ensures AllScalars(cs) && EncodeAll(cs) == s
    decreases |s|
  {
    hide Encode, ScalarOf;
    if s == [] {
      cs := [];
    } else {
      var w := WidthAt(s, 0);
      var first := s[..w];
      assert WidthAt(first, 0) == w;
      BytesRoundTrip(first);
      SuffixValid(s, w) by {
        assert ValidFrom(s, w);
      }
      var rest := ValidIsEncoded(s[w..]);
      cs := [ScalarOf(first)] + rest;
      assert cs[1..] == rest && s == first + s[w..];
    }
  }

  /** Well-formed text is what a sequence of characters is written as. */
  lemma ValidIffEncoded(s: Bytes)
    ensures Valid(s) <==> exists cs :: AllScalars(cs) && EncodeAll(cs) == s
  {
    hide EncodeAll, Valid;
    if Valid(s) {
      var cs := ValidIsEncoded(s);
    }
    forall cs | AllScalars(cs) && EncodeAll(cs) == s ensures Valid(s) {
      EncodeAllValid(cs);
    }
  }

  /** The bytes of a string of ASCII characters. */
  function Ascii(s: string): (bytes: Bytes)
    requires forall k :: 0 <= k < |s| ==> s[k] < 128 as char
    ensures |bytes| == |s| && forall k :: 0 <= k < |s| ==> bytes[k] as int == s[k] as int
  {
    seq(|s|, k requires 0 <= k < |s| => s[k] as int as byte)
  }
}
