/**
 Overlapping chunks of a text. `Ranges` is the one list of byte ranges that all four chunk loops
 of the extractors walk; the lemmas say what such a list covers, how fast it advances, and how
 the text is recovered from it.
 */
module Chunking {
  import opened Utf8
  import opened Execution

  datatype Range = Range(start: nat, end: nat)

  function Min(a: nat, b: nat): nat {
    if a < b then a else b
  }

  /** Where the chunk that starts at `start` ends. */
  function EndOf(s: Bytes, start: nat, max: nat): nat {
    AlignDown(s, start, Min(start + max, |s|))
  }

  /** Where the chunk after `[start, end)` starts: back by the overlap, on to a boundary, and at
      `end` when that makes no progress. */
  function NextOf(s: Bytes, start: nat, end: nat, overlap: nat): nat {
    var next := AlignDown(s, start, if end >= overlap then end - overlap else 0);
    if next > start then next else end
  }

  /** One chunk step: it consumes something, stays on boundaries, and falls short of the limit by
      at most three bytes unless it reaches the end of the text. */
  lemma StepFacts(s: Bytes, start: nat, max: nat, overlap: nat)
    requires Valid(s) && start < |s| && IsBoundary(s, start) && max >= 4
    ensures var end := EndOf(s, start, max);
            && start < end <= |s| && end - start <= max && IsBoundary(s, end)
            && (start + max >= |s| ==> end == |s|)
            && (start + max < |s| ==> end + 3 >= start + max)
            && var next := NextOf(s, start, end, overlap);
               && start < next <= end && IsBoundary(s, next)
               && (next == end || overlap <= end - next <= overlap + 3)
  {
    AlignDownIsLast(s, start, Min(start + max, |s|));
    AlignDownIsShort(s, start, Min(start + max, |s|));
    var end := EndOf(s, start, max);
    if end - start >= overlap {
      AlignDownIsLast(s, start, end - overlap);
      AlignDownIsShort(s, start, end - overlap);
    }
  }

  /** The ranges of the chunks of `s` from `start` on. */
  function Ranges(s: Bytes, start: nat, max: nat, overlap: nat): seq<Range>
    requires Valid(s) && start <= |s| && IsBoundary(s, start) && max >= 4
    decreases |s| - start
  {
    if start == |s| then []
    else
      StepFacts(s, start, max, overlap);
      var end := EndOf(s, start, max);
      [Range(start, end)]
      + if end == |s| then [] else Ranges(s, NextOf(s, start, end, overlap), max, overlap)
  }

  /** Non-empty, aligned, bounded chunks from `start` to the end of the text, whose starts increase
      strictly, whose ends never go back, and between which nothing is left out. */
  ghost predicate Covers(s: Bytes, start: nat, rs: seq<Range>, max: nat) {
    && (start == |s| <==> rs == [])
    && (rs != [] ==> rs[0].start == start && rs[|rs| - 1].end == |s|)
    && AllSound(s, rs, max)
    && Chained(rs)
  }

  ghost predicate AllSound(s: Bytes, rs: seq<Range>, max: nat) {
    forall k :: 0 <= k < |rs| ==> Sound(s, rs[k], max)
  }

  ghost predicate Chained(rs: seq<Range>) {
    forall j, k :: 0 <= j && k == j + 1 && k < |rs| ==> Follows(rs[j], rs[k])
  }

  predicate Sound(s: Bytes, r: Range, max: nat) {
    && r.start < r.end <= |s| && r.end - r.start <= max
    && IsBoundary(s, r.start) && IsBoundary(s, r.end)
    && Valid(s[r.start..r.end])
  }

  predicate Follows(before: Range, after: Range) {
    before.start < after.start <= before.end <= after.end
  }

  lemma CoversOne(s: Bytes, r: Range, rest: seq<Range>, max: nat)
    requires Sound(s, r, max)
    requires rest == [] ==> r.end == |s|
    requires rest != [] ==> Covers(s, rest[0].start, rest, max) && Follows(r, rest[0])
    ensures Covers(s, r.start, [r] + rest, max)
  {
    var rs := [r] + rest;
    forall k | 0 <= k < |rs| ensures Sound(s, rs[k], max) {
      assert k > 0 ==> rs[k] == rest[k - 1];
    }
    forall j, k | 0 <= j && k == j + 1 && k < |rs| ensures Follows(rs[j], rs[k]) {
      assert rs[k] == rest[k - 1];
      assert j > 0 ==> rs[j] == rest[j - 1];
    }
  }

  lemma {:induction false} RangesCover(s: Bytes, start: nat, max: nat, overlap: nat)
    requires Valid(s) && start <= |s| && IsBoundary(s, start) && max >= 4
    ensures Covers(s, start, Ranges(s, start, max, overlap), max)
    decreases |s| - start
  {
    if start < |s| {
      StepFacts(s, start, max, overlap);
      var end := EndOf(s, start, max);
      SliceValid(s, start, end);
      if end < |s| {
        var next := NextOf(s, start, end, overlap);
        EndsNeverGoBack(s, start, max, overlap);
        RangesCover(s, next, max, overlap);
        var rest := Ranges(s, next, max, overlap);
        assert rest[0] == Range(next, EndOf(s, next, max));
        CoversOne(s, Range(start, end), rest, max);
      } else {
        CoversOne(s, Range(start, end), [], max);
      }
    }
  }

  /** The next chunk ends no earlier than this one. */
  lemma EndsNeverGoBack(s: Bytes, start: nat, max: nat, overlap: nat)
    requires Valid(s) && start < |s| && IsBoundary(s, start) && max >= 4
    requires EndOf(s, start, max) < |s|
    ensures EndOf(s, start, max)
            <= EndOf(s, NextOf(s, start, EndOf(s, start, max), overlap), max)
  {
    StepFacts(s, start, max, overlap);
    var end := EndOf(s, start, max);
    var next := NextOf(s, start, end, overlap);
    AlignDownIsLast(s, next, Min(next + max, |s|));
  }

  /** Whether each chunk ends after the one before. */
  ghost predicate EndsIncrease(rs: seq<Range>) {
    forall j, k :: 0 <= j && k == j + 1 && k < |rs| ==> rs[j].end < rs[k].end
  }

  /** Limits under which ends increase on every text. */
  predicate Spaced(max: nat, overlap: nat) {
    overlap == 0 || max > overlap + 6
  }

  lemma {:induction false} SpacedEndsIncrease(s: Bytes, start: nat, max: nat, overlap: nat)
    requires Valid(s) && start <= |s| && IsBoundary(s, start) && max >= 4 && Spaced(max, overlap)
    ensures EndsIncrease(Ranges(s, start, max, overlap))
    decreases |s| - start
  {
    hide ValidFrom, AlignDown;
    if start < |s| {
      StepFacts(s, start, max, overlap);
      var end := EndOf(s, start, max);
      if end < |s| {
        var next := NextOf(s, start, end, overlap);
        NextWithoutOverlap(s, start, end);
        StepFacts(s, next, max, overlap);
        SpacedEndsIncrease(s, next, max, overlap);
        var tail := Ranges(s, next, max, overlap);
        assert Ranges(s, start, max, overlap) == [Range(start, end)] + tail;
        assert tail[0].end == EndOf(s, next, max);
      }
    }
  }

  lemma NextWithoutOverlap(s: Bytes, start: nat, end: nat)
    requires start < end <= |s| && IsBoundary(s, end)
    ensures NextOf(s, start, end, 0) == end
  {
  }

  // A text on which two chunks have the same end, for all other limits.

  function Ones(n: nat): (s: Bytes)
    ensures |s| == n && forall k :: 0 <= k < n ==> s[k] == 0x61
  {
    seq(n, _ => 0x61)
  }

  /** A character of two to four bytes. */
  function Wide(width: nat): (s: Bytes)
    requires 2 <= width <= 4
    ensures |s| == width && !Tail(s[0]) && forall k :: 0 < k < width ==> Tail(s[k])
  {
    if width == 2 then [0xC3, 0xA9] else if width == 3 then [0xE2, 0x82, 0xAC]
    else [0xF0, 0x9F, 0x98, 0x80]
  }

  lemma {:induction false} OnesValid(s: Bytes, i: nat)
    requires i <= |s| && forall k :: 0 <= k < |s| ==> s[k] == 0x61
    ensures ValidFrom(s, i)
    decreases |s| - i
  {
    if i < |s| {
      OnesValid(s, i + 1);
    }
  }

  lemma WideValid(width: nat)
    requires 2 <= width <= 4
    ensures Valid(Wide(width))
  {
    var s := Wide(width);
    assert WidthAt(s, 0) == width;
    assert ValidFrom(s, width);
  }

  /** `max` bytes of text, and then a character of four bytes; the text has a wide character where the
      second chunk is to start, unless that is one of the first three bytes anyway. */
  function Repeating(max: nat, overlap: nat): Bytes
    requires 0 < overlap < max <= overlap + 6
  {
    (if max - overlap <= 3 then Ones(max)
     else Ones(3) + Wide(max - overlap - 2) + Ones(overlap - 1))
    + Wide(4)
  }

  lemma RepeatingValid(max: nat, overlap: nat)
    requires 0 < overlap < max <= overlap + 6
    ensures Valid(Repeating(max, overlap)) && |Repeating(max, overlap)| == max + 4
  {
    hide ValidFrom, WidthAt, Wide;
    WideValid(4);
    if max - overlap <= 3 {
      OnesValid(Ones(max), 0);
      ConcatValid(Ones(max), Wide(4));
    } else {
      var width := max - overlap - 2;
      WideValid(width);
      OnesValid(Ones(3), 0);
      OnesValid(Ones(overlap - 1), 0);
      ConcatValid(Ones(3), Wide(width));
      ConcatValid(Ones(3) + Wide(width), Ones(overlap - 1));
      ConcatValid(Ones(3) + Wide(width) + Ones(overlap - 1), Wide(4));
    }
  }

  /** The last boundary of an interval is where the step back ends. */
  lemma AlignDownIs(s: Bytes, floor: nat, from: nat, at: nat)
    requires floor <= at <= from <= |s| && IsBoundary(s, floor) && IsBoundary(s, at)
    requires forall j :: at < j <= from ==> !IsBoundary(s, j)
    ensures AlignDown(s, floor, from) == at
  {
    AlignDownIsLast(s, floor, from);
  }

  /** Its first two chunks both end at byte `max`. */
  lemma RepeatingRepeats(max: nat, overlap: nat)
    requires 4 <= max && 0 < overlap < max <= overlap + 6
    ensures var s := Repeating(max, overlap);
            var next := if max - overlap <= 3 then max - overlap else 3;
            && EndOf(s, 0, max) == max < |s|
            && NextOf(s, 0, max, overlap) == next
            && EndOf(s, next, max) == max
  {
    hide ValidFrom, AlignDown, Wide;
    var s := Repeating(max, overlap);
    RepeatingValid(max, overlap);
    var next := if max - overlap <= 3 then max - overlap else 3;
    assert s[max] == Wide(4)[0];
    assert forall j :: max < j < max + 4 ==> s[j] == Wide(4)[j - max];
    assert next > 0 && !Tail(s[next]) by {
      assert max - overlap <= 3 ==> s[next] == 0x61;
      assert max - overlap > 3 ==> s[next] == Wide(max - overlap - 2)[0];
    }
    assert forall j :: next < j <= max - overlap ==> Tail(s[j]) by {
      if max - overlap > 3 {
        assert forall j :: 3 < j <= max - overlap ==> s[j] == Wide(max - overlap - 2)[j - 3];
      }
    }
    AlignDownIs(s, 0, max, max);
    AlignDownIs(s, 0, max - overlap, next);
    AlignDownIs(s, next, next + max, max);
  }

  /** Ends increase strictly on every text if and only if chunks do not overlap, or are longer than the
      overlap by more than six bytes. */
  lemma EndsIncreaseIff(max: nat, overlap: nat)
    requires max >= 4 && overlap < max
    ensures (forall s: Bytes :: Valid(s) ==> EndsIncrease(Ranges(s, 0, max, overlap)))
            <==> Spaced(max, overlap)
  {
    hide ValidFrom, AlignDown, EndsIncrease;
    if Spaced(max, overlap) {
      forall s: Bytes | Valid(s) ensures EndsIncrease(Ranges(s, 0, max, overlap)) {
        SpacedEndsIncrease(s, 0, max, overlap);
      }
    } else {
      var s := Repeating(max, overlap);
      RepeatingValid(max, overlap);
      RepeatingRepeats(max, overlap);
      EndsRepeat(s, max, overlap);
    }
  }

  lemma EndsRepeat(s: Bytes, max: nat, overlap: nat)
    requires Valid(s) && s != [] && max >= 4
    requires var end := EndOf(s, 0, max);
             end < |s| && EndOf(s, NextOf(s, 0, end, overlap), max) == end
    ensures !EndsIncrease(Ranges(s, 0, max, overlap))
  {
    hide ValidFrom, AlignDown;
    StepFacts(s, 0, max, overlap);
    var end := EndOf(s, 0, max);
    var next := NextOf(s, 0, end, overlap);
    var rs := Ranges(s, 0, max, overlap);
    assert rs == [Range(0, end)] + Ranges(s, next, max, overlap);
    assert rs[0].end == end && rs[1].end == end;
  }

  /** The overlap of two successive chunks. */
  function OverlapOf(before: Range, after: Range): int {
    before.end - after.start
  }

  /** Successive chunks overlap not at all, or by the overlap and up to three bytes more; and when
      the limit exceeds the overlap by more than six, each chunk starts at least
      `max - overlap - 6` bytes after the one before. */
  predicate Progresses(before: Range, after: Range, max: nat, overlap: nat) {
    && (OverlapOf(before, after) == 0 || overlap <= OverlapOf(before, after) <= overlap + 3)
    && (max > overlap + 6 ==> after.start - before.start >= max - overlap - 6)
  }

  ghost predicate AllProgress(rs: seq<Range>, max: nat, overlap: nat) {
    forall j, k :: 0 <= j && k == j + 1 && k < |rs| ==> Progresses(rs[j], rs[k], max, overlap)
  }

  lemma {:induction false} RangesProgress(s: Bytes, start: nat, max: nat, overlap: nat)
    requires Valid(s) && start <= |s| && IsBoundary(s, start) && max >= 4
    ensures AllProgress(Ranges(s, start, max, overlap), max, overlap)
    decreases |s| - start
  {
    if start < |s| {
      StepFacts(s, start, max, overlap);
      var end := EndOf(s, start, max);
      if end < |s| {
        var next := NextOf(s, start, end, overlap);
        var rest := Ranges(s, next, max, overlap);
        RangesProgress(s, next, max, overlap);
        assert rest[0].start == next;
        var rs := [Range(start, end)] + rest;
        forall j, k | 0 <= j && k == j + 1 && k < |rs|
          ensures Progresses(rs[j], rs[k], max, overlap)
        {
          assert rs[k] == rest[k - 1];
          assert j > 0 ==> rs[j] == rest[j - 1];
        }
        assert Ranges(s, start, max, overlap) == rs;
      }
    }
  }

  // The ranges without the loop: each end and each start is the greatest one that is allowed.

  /** A boundary at which a chunk that starts at `start` may end. */
  predicate MayEnd(s: Bytes, start: nat, max: nat, at: nat) {
    start <= at <= start + max && at <= |s| && IsBoundary(s, at)
  }

  /** A boundary inside a chunk that leaves the whole overlap to be repeated. */
  predicate MayStart(s: Bytes, before: Range, overlap: nat, at: nat) {
    before.start < at && at + overlap <= before.end && at <= |s| && IsBoundary(s, at)
  }

  ghost predicate EndsLast(s: Bytes, r: Range, max: nat) {
    && MayEnd(s, r.start, max, r.end)
    && forall at: nat :: MayEnd(s, r.start, max, at) ==> at <= r.end
  }

  /** The next chunk repeats the overlap and as little more as boundaries allow; only where no boundary
      leaves the overlap does it repeat nothing. */
  ghost predicate StartsLast(s: Bytes, before: Range, overlap: nat, next: nat) {
    && (forall at: nat :: MayStart(s, before, overlap, at) ==> at <= next)
    && (MayStart(s, before, overlap, next)
        || (next == before.end && forall at: nat :: !MayStart(s, before, overlap, at)))
  }

  /** From `start` to the end of the text, in chunks that end and start as late as they may. */
  ghost predicate Greedy(s: Bytes, start: nat, rs: seq<Range>, max: nat, overlap: nat) {
    && (rs == [] <==> start == |s|)
    && (rs != [] ==> rs[0].start == start && rs[|rs| - 1].end == |s|)
    && AllEndLast(s, rs, max) && AllStartLast(s, rs, overlap)
  }

  ghost predicate AllEndLast(s: Bytes, rs: seq<Range>, max: nat) {
    forall k :: 0 <= k < |rs| ==> EndsLast(s, rs[k], max)
  }

  ghost predicate AllStartLast(s: Bytes, rs: seq<Range>, overlap: nat) {
    forall j, k :: 0 <= j && k == j + 1 && k < |rs| ==> ComesLast(s, rs[j], rs[k], overlap)
  }

  ghost predicate ComesLast(s: Bytes, before: Range, after: Range, overlap: nat) {
    before.end < |s| && StartsLast(s, before, overlap, after.start)
  }

  lemma EndIsLast(s: Bytes, start: nat, max: nat, end: nat)
    requires start < |s| && IsBoundary(s, start)
    ensures EndsLast(s, Range(start, end), max) <==> end == EndOf(s, start, max)
  {
    hide AlignDown, IsBoundary;
    var last := EndOf(s, start, max);
    AlignDownIsLast(s, start, Min(start + max, |s|));
    assert MayEnd(s, start, max, last);
  }

  lemma NextIsLast(s: Bytes, start: nat, end: nat, overlap: nat, next: nat)
    requires start < end <= |s| && IsBoundary(s, start) && IsBoundary(s, end)
    ensures StartsLast(s, Range(start, end), overlap, next) <==> next == NextOf(s, start, end, overlap)
  {
    hide AlignDown, IsBoundary;
    var last := NextOf(s, start, end, overlap);
    if end - start >= overlap {
      AlignDownIsLast(s, start, end - overlap);
    } else {
      NothingToStepOver(s, start, if end >= overlap then end - overlap else 0);
    }
    assert last != end ==> MayStart(s, Range(start, end), overlap, last);
    assert overlap == 0 ==> MayStart(s, Range(start, end), overlap, end);
  }

  lemma NothingToStepOver(s: Bytes, floor: nat, from: nat)
    requires from <= floor
    ensures AlignDown(s, floor, from) == from
  {
  }

  lemma GreedyCons(s: Bytes, r: Range, rest: seq<Range>, max: nat, overlap: nat)
    requires r.start < |s| && EndsLast(s, r, max)
    requires if rest == [] then r.end == |s|
             else ComesLast(s, r, rest[0], overlap) && Greedy(s, rest[0].start, rest, max, overlap)
    ensures Greedy(s, r.start, [r] + rest, max, overlap)
  {
    hide EndsLast, ComesLast;
    var rs := [r] + rest;
    assert AllEndLast(s, rs, max) by {
      forall k | 0 <= k < |rs| ensures EndsLast(s, rs[k], max) {
        assert k > 0 ==> rs[k] == rest[k - 1];
      }
    }
    assert AllStartLast(s, rs, overlap) by {
      forall j, k | 0 <= j && k == j + 1 && k < |rs| ensures ComesLast(s, rs[j], rs[k], overlap) {
        assert rs[k] == rest[k - 1] && (j > 0 ==> rs[j] == rest[j - 1]);
      }
    }
    hide AllEndLast, AllStartLast;
    assert rs[0] == r && rs[|rs| - 1] == if rest == [] then r else rest[|rest| - 1];
  }

  lemma GreedyTail(s: Bytes, start: nat, rs: seq<Range>, max: nat, overlap: nat)
    requires start < |s| && Greedy(s, start, rs, max, overlap)
    ensures rs != [] && rs[0].start == start && EndsLast(s, rs[0], max)
    ensures |rs| == 1 ==> rs[0].end == |s|
    ensures |rs| > 1 ==> ComesLast(s, rs[0], rs[1], overlap) && rs[1].start < |s|
                         && Greedy(s, rs[1].start, rs[1..], max, overlap)
  {
    hide EndsLast;
    if |rs| > 1 {
      var rest := rs[1..];
      assert ComesLast(s, rs[0], rs[1], overlap);
      assert rs[1].start < |s|;
      hide ComesLast;
      assert AllEndLast(s, rest, max) by {
        forall k | 0 <= k < |rest| ensures EndsLast(s, rest[k], max) {
          assert rest[k] == rs[k + 1];
        }
      }
      assert AllStartLast(s, rest, overlap) by {
        forall j, k | 0 <= j && k == j + 1 && k < |rest| ensures ComesLast(s, rest[j], rest[k], overlap)
        {
          assert rest[j] == rs[j + 1] && rest[k] == rs[k + 1];
        }
      }
    }
  }

  lemma {:induction false} RangesAreGreedy(s: Bytes, start: nat, max: nat, overlap: nat)
    requires Valid(s) && start <= |s| && IsBoundary(s, start) && max >= 4
    ensures Greedy(s, start, Ranges(s, start, max, overlap), max, overlap)
    decreases |s| - start
  {
    hide ValidFrom, EndsLast, StartsLast, EndOf, NextOf, IsBoundary;
    if start < |s| {
      StepFacts(s, start, max, overlap);
      var end := EndOf(s, start, max);
      EndIsLast(s, start, max, end);
      if end == |s| {
        GreedyCons(s, Range(start, end), [], max, overlap);
      } else {
        var next := NextOf(s, start, end, overlap);
        NextIsLast(s, start, end, overlap, next);
        RangesAreGreedy(s, next, max, overlap);
        FirstRange(s, next, max, overlap);
        hide Greedy;
        GreedyCons(s, Range(start, end), Ranges(s, next, max, overlap), max, overlap);
      }
    }
  }

  lemma {:induction false} GreedyIsRanges(
    s: Bytes, start: nat, rs: seq<Range>, max: nat, overlap: nat)
    requires Valid(s) && start <= |s| && IsBoundary(s, start) && max >= 4
    requires Greedy(s, start, rs, max, overlap)
    ensures rs == Ranges(s, start, max, overlap)
    decreases |s| - start
  {
    hide ValidFrom, EndsLast, StartsLast, EndOf, NextOf, IsBoundary;
    if start < |s| {
      StepFacts(s, start, max, overlap);
      GreedyTail(s, start, rs, max, overlap);
      hide Greedy;
      EndIsLast(s, start, max, rs[0].end);
      assert rs == [rs[0]] + rs[1..];
      if |rs| > 1 {
        NextIsLast(s, start, rs[0].end, overlap, rs[1].start);
        GreedyIsRanges(s, rs[1].start, rs[1..], max, overlap);
      }
    }
  }

  /** The ranges of a text are the one list of this kind. */
  lemma RangesAreGreedyIff(s: Bytes, rs: seq<Range>, max: nat, overlap: nat)
    requires Valid(s) && max >= 4
    ensures rs == Ranges(s, 0, max, overlap) <==> Greedy(s, 0, rs, max, overlap)
  {
    hide ValidFrom, Greedy;
    RangesAreGreedy(s, 0, max, overlap);
    if Greedy(s, 0, rs, max, overlap) {
      GreedyIsRanges(s, 0, rs, max, overlap);
    }
  }

  lemma FirstRange(s: Bytes, start: nat, max: nat, overlap: nat)
    requires Valid(s) && start < |s| && IsBoundary(s, start) && max >= 4
    ensures Ranges(s, start, max, overlap) != []
    ensures Ranges(s, start, max, overlap)[0].start == start
  {
    hide ValidFrom;
    StepFacts(s, start, max, overlap);
  }

  /** A text of `n` bytes has at most `1 + (n - 1) / (max - overlap - 6)` chunks. */
  lemma ChunkCount(s: Bytes, max: nat, overlap: nat)
    requires Valid(s) && s != [] && max > overlap + 6
    ensures |Ranges(s, 0, max, overlap)| >= 1
    ensures (|Ranges(s, 0, max, overlap)| - 1) * (max - overlap - 6) <= |s| - 1
  {
    var rs := Ranges(s, 0, max, overlap);
    RangesCover(s, 0, max, overlap);
    RangesProgress(s, 0, max, overlap);
    StartsSpread(rs, |rs| - 1, max, overlap);
    assert Sound(s, rs[|rs| - 1], max);
  }

  lemma {:induction false} StartsSpread(rs: seq<Range>, k: nat, max: nat, overlap: nat)
    requires k < |rs| && max > overlap + 6
    requires AllProgress(rs, max, overlap)
    ensures rs[k].start >= k * (max - overlap - 6)
    decreases k
  {
    if k > 0 {
      StartsSpread(rs, k - 1, max, overlap);
      assert Progresses(rs[k - 1], rs[k], max, overlap);
      var step := max - overlap - 6;
      assert k * step == (k - 1) * step + step;
    }
  }

  function Take(s: Bytes, n: int): Bytes {
    if n < 0 then [] else if n < |s| then s[..n] else s
  }

  /** The text put together again from chunks: each gives its bytes up to the next one's start. */
  function Rebuild(rs: seq<Range>, texts: seq<Bytes>): Bytes
    requires |rs| == |texts|
  {
    if rs == [] then []
    else if |rs| == 1 then texts[0]
    else Take(texts[0], rs[1].start - rs[0].start) + Rebuild(rs[1..], texts[1..])
  }

  predicate IsText(s: Bytes, r: Range, text: Bytes) {
    r.start <= r.end <= |s| && text == s[r.start..r.end]
  }

  ghost predicate AreTexts(s: Bytes, rs: seq<Range>, texts: seq<Bytes>) {
    |texts| == |rs| && forall k :: 0 <= k < |rs| ==> IsText(s, rs[k], texts[k])
  }

  /** Chunks with their ranges determine the text they came from. */
  lemma {:induction false} CoveringRangesRebuild(
    s: Bytes, start: nat, rs: seq<Range>, texts: seq<Bytes>, max: nat)
    requires start <= |s| && Covers(s, start, rs, max) && AreTexts(s, rs, texts)
    ensures Rebuild(rs, texts) == s[start..]
    decreases |rs|
  {
    if |rs| > 1 {
      assert Follows(rs[0], rs[1]) && IsText(s, rs[0], texts[0]);
      TailCovers(s, start, rs, max);
      TailTexts(s, rs, texts);
      CoveringRangesRebuild(s, rs[1].start, rs[1..], texts[1..], max);
      RebuildStep(s, rs, texts);
    } else if |rs| == 1 {
      assert IsText(s, rs[0], texts[0]);
    }
  }

  lemma RebuildStep(s: Bytes, rs: seq<Range>, texts: seq<Bytes>)
    requires |rs| == |texts| > 1 && IsText(s, rs[0], texts[0])
    requires rs[0].start <= rs[1].start <= rs[0].end
    requires Rebuild(rs[1..], texts[1..]) == s[rs[1].start..]
    ensures Rebuild(rs, texts) == s[rs[0].start..]
  {
    var cut := rs[1].start - rs[0].start;
    if cut < |texts[0]| {
      assert texts[0][..cut] == s[rs[0].start..rs[1].start];
    } else {
      assert rs[1].start == rs[0].end;
    }
    assert s[rs[0].start..] == s[rs[0].start..rs[1].start] + s[rs[1].start..];
  }

  lemma TailTexts(s: Bytes, rs: seq<Range>, texts: seq<Bytes>)
    requires AreTexts(s, rs, texts) && rs != []
    ensures AreTexts(s, rs[1..], texts[1..])
  {
    forall k | 0 <= k < |rs| - 1 ensures IsText(s, rs[1..][k], texts[1..][k]) {
      assert IsText(s, rs[k + 1], texts[k + 1]);
    }
  }

  lemma TailCovers(s: Bytes, start: nat, rs: seq<Range>, max: nat)
    requires start <= |s| && Covers(s, start, rs, max) && |rs| > 1
    ensures rs[1].start <= |s| && Covers(s, rs[1].start, rs[1..], max)
  {
    var tail := rs[1..];
    assert Sound(s, rs[1], max);
    forall k | 0 <= k < |tail| ensures Sound(s, tail[k], max) {
      assert tail[k] == rs[k + 1];
    }
    forall j, k | 0 <= j && k == j + 1 && k < |tail| ensures Follows(tail[j], tail[k]) {
      assert tail[j] == rs[j + 1] && tail[k] == rs[k + 1];
    }
  }

  function Concat(texts: seq<Bytes>): Bytes {
    if texts == [] then [] else texts[0] + Concat(texts[1..])
  }

  /** Without overlap the chunks simply concatenate to the text. */
  lemma {:induction false} NoOverlapConcatenates(
    s: Bytes, start: nat, max: nat, texts: seq<Bytes>)
    requires Valid(s) && start <= |s| && IsBoundary(s, start) && max >= 4
    requires AreTexts(s, Ranges(s, start, max, 0), texts)
    ensures Concat(texts) == s[start..]
    decreases |s| - start
  {
    if start < |s| {
      var rs := Ranges(s, start, max, 0);
      var end := FirstRangeWithoutOverlap(s, start, max);
      assert IsText(s, rs[0], texts[0]);
      TailTexts(s, rs, texts);
      if end < |s| {
        NoOverlapConcatenates(s, end, max, texts[1..]);
      }
      ConcatStep(s, start, end, texts);
    }
  }

  lemma ConcatStep(s: Bytes, start: nat, end: nat, texts: seq<Bytes>)
    requires start <= end <= |s| && texts != [] && texts[0] == s[start..end]
    requires Concat(texts[1..]) == s[end..]
    ensures Concat(texts) == s[start..]
  {
    assert s[start..] == s[start..end] + s[end..];
  }

  lemma FirstRangeWithoutOverlap(s: Bytes, start: nat, max: nat) returns (end: nat)
    requires Valid(s) && start < |s| && IsBoundary(s, start) && max >= 4
    ensures start < end <= |s| && IsBoundary(s, end)
    ensures var rs := Ranges(s, start, max, 0);
            rs != [] && rs[0] == Range(start, end)
            && rs[1..] == if end < |s| then Ranges(s, end, max, 0) else []
  {
    StepFacts(s, start, max, 0);
    end := EndOf(s, start, max);
    assert NextOf(s, start, end, 0) == end;
  }

  /** Names the provenance of a fragment from its range and its index within its unit. */
  type Label = (Range, nat) -> Provenance

  /** The steps that emit the chunks of `s` from `start` on, the first of them fragment `index`. */
  function Pieces(s: Bytes, start: nat, index: nat, limits: Limits, name: Label): seq<Step>
    requires Valid(s) && start <= |s| && IsBoundary(s, start) && limits.maxChunkBytes >= 4
    decreases |s| - start
  {
    if start == |s| then []
    else
      StepFacts(s, start, limits.maxChunkBytes, limits.chunkOverlapBytes);
      var end := EndOf(s, start, limits.maxChunkBytes);
      [Piece(s[start..end], name(Range(start, end), index))]
      + if end == |s| then []
        else Pieces(s, NextOf(s, start, end, limits.chunkOverlapBytes), index + 1, limits, name)
  }

  /** All the pieces of one unit of text. */
  function UnitPieces(s: Bytes, limits: Limits, name: Label): seq<Step>
    requires Valid(s) && limits.maxChunkBytes >= 4
  {
    Pieces(s, 0, 0, limits, name)
  }

  /** `piece` is fragment `index` of `s`, cut at the range `r`. */
  predicate IsFragment(s: Bytes, r: Range, index: nat, name: Label, piece: Step) {
    r.start <= r.end <= |s| && piece == Piece(s[r.start..r.end], name(r, index))
  }

  ghost predicate AreFragments(
    s: Bytes, rs: seq<Range>, index: nat, name: Label, pieces: seq<Step>)
  {
    |pieces| == |rs| && forall k :: 0 <= k < |rs| ==> IsFragment(s, rs[k], index + k, name, pieces[k])
  }

  lemma OneMoreFragment(
    s: Bytes, r: Range, rest: seq<Range>, index: nat, name: Label, piece: Step, more: seq<Step>)
    requires IsFragment(s, r, index, name, piece) && AreFragments(s, rest, index + 1, name, more)
    ensures AreFragments(s, [r] + rest, index, name, [piece] + more)
  {
    var rs, pieces := [r] + rest, [piece] + more;
    forall k | 0 <= k < |rs| ensures IsFragment(s, rs[k], index + k, name, pieces[k]) {
      if k > 0 {
        assert IsFragment(s, rest[k - 1], index + 1 + (k - 1), name, more[k - 1]);
      }
    }
  }

  /** The pieces are the ranges, labelled with the fragment indices `index`, `index + 1`, ... */
  lemma {:induction false} PiecesAreRanges(
    s: Bytes, start: nat, index: nat, limits: Limits, name: Label)
    requires Valid(s) && start <= |s| && IsBoundary(s, start) && limits.maxChunkBytes >= 4
    ensures AreFragments(
              s, Ranges(s, start, limits.maxChunkBytes, limits.chunkOverlapBytes), index, name,
              Pieces(s, start, index, limits, name))
    decreases |s| - start
  {
    if start < |s| {
      var max, overlap := limits.maxChunkBytes, limits.chunkOverlapBytes;
      StepFacts(s, start, max, overlap);
      var end := EndOf(s, start, max);
      var r := Range(start, end);
      var piece := Piece(s[start..end], name(r, index));
      if end < |s| {
        var next := NextOf(s, start, end, overlap);
        PiecesAreRanges(s, next, index + 1, limits, name);
        OneMoreFragment(s, r, Ranges(s, next, max, overlap), index, name, piece,
                        Pieces(s, next, index + 1, limits, name));
      } else {
        OneMoreFragment(s, r, [], index, name, piece, []);
      }
    }
  }

  /** A plan of pieces only keeps all of them. */
  lemma {:induction false} OnlyPieces(s: Bytes, start: nat, index: nat, limits: Limits, name: Label)
    requires Valid(s) && start <= |s| && IsBoundary(s, start) && limits.maxChunkBytes >= 4
    ensures var pieces := Pieces(s, start, index, limits, name);
            PiecesOf(pieces) == pieces && RejectsNothing(pieces)
    decreases |s| - start
  {
    if start < |s| {
      StepFacts(s, start, limits.maxChunkBytes, limits.chunkOverlapBytes);
      var end := EndOf(s, start, limits.maxChunkBytes);
      var pieces := Pieces(s, start, index, limits, name);
      if end < |s| {
        OnlyPieces(s, NextOf(s, start, end, limits.chunkOverlapBytes), index + 1, limits, name);
      }
      assert pieces == [pieces[0]] + pieces[1..];
    }
  }

  lemma UnitKeepsPieces(s: Bytes, limits: Limits, name: Label)
    requires Valid(s) && limits.maxChunkBytes >= 4
    ensures PiecesOf(UnitPieces(s, limits, name)) == UnitPieces(s, limits, name)
  {
    hide ValidFrom, Pieces, PiecesOf;
    OnlyPieces(s, 0, 0, limits, name);
  }
}
