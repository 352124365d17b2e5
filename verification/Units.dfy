/**
 Units of text chunked one after another into one list: pages of a document, observations of an
 image. Ordinals and the byte total run on from unit to unit; fragment indices start over.
 */
module Units {
  import opened Wrappers
  import opened Utf8
  import opened Execution
  import opened Chunking

  /** A unit that is reached after some control checks, and a unit whose text cannot be had. */
  datatype Unit =
    | Unit(checks: nat, content: Text, name: Label)
    | Broken(checks: nat, error: ExtractionError)

  function Gates(n: nat): (plan: seq<Step>)
    ensures |plan| == n && forall k :: 0 <= k < n ==> plan[k].Gate?
  {
    seq(n, _ => Gate)
  }

  function UnitPlan(unit: Unit, limits: Limits): seq<Step>
    requires limits.maxChunkBytes >= 4
  {
    Gates(unit.checks)
    + if unit.Unit? then UnitPieces(unit.content, limits, unit.name) else [Reject(unit.error)]
  }

  function UnitsPlan(units: seq<Unit>, limits: Limits): seq<Step>
    requires limits.maxChunkBytes >= 4
  {
    if units == [] then [] else UnitPlan(units[0], limits) + UnitsPlan(units[1..], limits)
  }

  /** The pieces of all units in order. */
  function AllPieces(units: seq<Unit>, limits: Limits): seq<Step>
    requires limits.maxChunkBytes >= 4
  {
    if units == [] then []
    else (if units[0].Unit? then UnitPieces(units[0].content, limits, units[0].name) else [])
         + AllPieces(units[1..], limits)
  }

  predicate AllReadable(units: seq<Unit>) {
    forall u :: 0 <= u < |units| ==> units[u].Unit?
  }

  lemma {:induction false} AllPiecesArePieces(units: seq<Unit>, limits: Limits)
    requires limits.maxChunkBytes >= 4
    ensures PiecesOf(AllPieces(units, limits)) == AllPieces(units, limits)
    ensures PiecesOf(UnitsPlan(units, limits)) == AllPieces(units, limits)
    decreases |units|
  {
    hide Pieces, ValidFrom;
    if units != [] {
      var rest := units[1..];
      AllPiecesArePieces(rest, limits);
      UnitPlanPieces(units[0], limits);
      PiecesOfConcat(UnitPlan(units[0], limits), UnitsPlan(rest, limits));
      var first := PiecesOf(UnitPlan(units[0], limits));
      PiecesOfConcat(first, AllPieces(rest, limits));
    }
  }

  lemma UnitPlanPieces(unit: Unit, limits: Limits)
    requires limits.maxChunkBytes >= 4
    ensures var pieces := if unit.Unit? then UnitPieces(unit.content, limits, unit.name) else [];
            PiecesOf(UnitPlan(unit, limits)) == pieces && PiecesOf(pieces) == pieces
    ensures RejectsNothing(UnitPlan(unit, limits)) <==> unit.Unit?
  {
    hide Pieces, ValidFrom, PiecesOf;
    WithoutPieces(Gates(unit.checks));
    WithoutPieces([]);
    if unit.Unit? {
      var pieces := UnitPieces(unit.content, limits, unit.name);
      OnlyPieces(unit.content, 0, 0, limits, unit.name);
      PiecesOfConcat(Gates(unit.checks), pieces);
      RejectsNothingConcat(Gates(unit.checks), pieces);
    } else {
      WithoutPieces([Reject(unit.error)]);
      PiecesOfConcat(Gates(unit.checks), [Reject(unit.error)]);
      RejectsNothingConcat(Gates(unit.checks), [Reject(unit.error)]);
      assert [Reject(unit.error)][0].Reject?;
    }
  }

  lemma {:induction false} UnitsRejectNothing(units: seq<Unit>, limits: Limits)
    requires limits.maxChunkBytes >= 4
    ensures RejectsNothing(UnitsPlan(units, limits)) <==> AllReadable(units)
    decreases |units|
  {
    hide Pieces, ValidFrom, PiecesOf, UnitPlan;
    if units != [] {
      UnitsRejectNothing(units[1..], limits);
      UnitPlanPieces(units[0], limits);
      RejectsNothingConcat(UnitPlan(units[0], limits), UnitsPlan(units[1..], limits));
      assert units == [units[0]] + units[1..];
    }
  }

  /** One turn of a loop over units of two checks or fewer, read off the plan. */
  lemma UnitsTurn(units: seq<Unit>, limits: Limits, budget: Budget, sink: Sink)
    requires limits.maxChunkBytes >= 4 && units != [] && 1 <= units[0].checks <= 2
    ensures var once := Advance(Gate, sink);
            var ready := if units[0].checks == 1 then once else Advance(Gate, once);
            var run := Execute(UnitsPlan(units, limits), budget, sink);
            run
            == if budget.control(sink.checks).Some? then
                 Outcome(once, Some(Stopped(budget.control(sink.checks).value)))
               else if units[0].checks == 2 && budget.control(once.checks).Some? then
                 Outcome(ready, Some(Stopped(budget.control(once.checks).value)))
               else if units[0].Broken? then Outcome(ready, Some(units[0].error))
               else
                 var own := Execute(UnitPieces(units[0].content, limits, units[0].name), budget,
                                    ready);
                 if own.error.Some? then own
                 else Execute(UnitsPlan(units[1..], limits), budget, own.sink)
  {
    hide Execute, Pieces, ValidFrom;
    var unit := units[0];
    var body := if unit.Unit? then UnitPieces(unit.content, limits, unit.name)
                else [Reject(unit.error)];
    var rest := UnitsPlan(units[1..], limits);
    var once := Advance(Gate, sink);
    var more := Gates(unit.checks - 1) + (body + rest);
    assert UnitsPlan(units, limits) == [Gate] + more;
    ExecuteCons(Gate, more, budget, sink);
    if unit.checks == 2 {
      assert more == [Gate] + (body + rest);
      ExecuteCons(Gate, body + rest, budget, once);
    } else {
      assert more == body + rest;
    }
    var ready := if unit.checks == 1 then once else Advance(Gate, once);
    ExecuteConcat(body, rest, budget, ready);
    if unit.Broken? {
      Rejected(unit.error, budget, ready);
    }
  }

  lemma NoUnitsLeft(limits: Limits, budget: Budget, sink: Sink)
    requires limits.maxChunkBytes >= 4
    ensures Execute(UnitsPlan([], limits), budget, sink) == Outcome(sink, None)
  {
    ExecuteNothing(budget, sink);
  }

  /** Chunking a list of units succeeds if and only if every unit is readable, control never
      objects, and the pieces of all units together fit both limits; and then the chunks are those
      pieces, numbered from 0, with the total of their bytes. */
  lemma ThreadedUnits(units: seq<Unit>, limits: Limits, budget: Budget, checks: nat)
    requires limits.maxChunkBytes >= 4
    ensures var plan, pieces := UnitsPlan(units, limits), AllPieces(units, limits);
            var run := Execute(plan, budget, Sink([], 0, checks));
            && (run.error.None?
                <==> AllReadable(units) && Quiet(budget.control, checks, |plan|)
                     && |pieces| <= budget.maxChunks && BytesOf(pieces) <= budget.maxOutputBytes)
            && (forall k :: 0 <= k < |pieces| ==> pieces[k].Piece?)
            && (run.error.None? ==>
                  run.sink == Sink(Numbered(pieces, 0), BytesOf(pieces), checks + |plan|))
  {
    hide Pieces, ValidFrom, PiecesOf, UnitPlan, UnitsPlan, AllPieces, Execute, BytesOf, Quiet;
    var plan, pieces := UnitsPlan(units, limits), AllPieces(units, limits);
    var empty := Sink([], 0, checks);
    AllPiecesArePieces(units, limits);
    BytesOfPieces(plan);
    UnitsRejectNothing(units, limits);
    SucceedsIff(plan, budget, empty);
    assert plan[..|plan|] == plan;
    assert [] + Numbered(pieces, 0) == Numbered(pieces, 0);
  }

  /** The pieces of unit `u` stand after those of the units before it, and they are exactly the
      fragments 0, 1, ... of the ranges of that unit's text. */
  lemma UnitFragments(units: seq<Unit>, u: nat, limits: Limits)
    requires limits.maxChunkBytes >= 4 && u < |units| && units[u].Unit?
    ensures var pieces := AllPieces(units, limits);
            var before := |AllPieces(units[..u], limits)|;
            var rs := Ranges(units[u].content, 0, limits.maxChunkBytes, limits.chunkOverlapBytes);
            && before + |rs| <= |pieces|
            && AreFragments(units[u].content, rs, 0, units[u].name,
                            pieces[before..before + |rs|])
  {
    hide Pieces, ValidFrom, AllPieces, Ranges, AreFragments;
    var before := AllPieces(units[..u], limits);
    var own := UnitPieces(units[u].content, limits, units[u].name);
    var after := AllPieces(units[u + 1..], limits);
    var rs := Ranges(units[u].content, 0, limits.maxChunkBytes, limits.chunkOverlapBytes);
    AllPiecesSplit(units, u, limits);
    PiecesAreRanges(units[u].content, 0, 0, limits, units[u].name);
    assert |own| == |rs| by {
      SameCount(units[u].content, rs, units[u].name, own);
    }
    assert (before + (own + after))[|before|..|before| + |own|] == own;
  }

  lemma SameCount(s: Bytes, rs: seq<Range>, name: Label, pieces: seq<Step>)
    requires AreFragments(s, rs, 0, name, pieces)
    ensures |pieces| == |rs|
  {
  }

  lemma {:induction false} AllPiecesConcat(a: seq<Unit>, b: seq<Unit>, limits: Limits)
    requires limits.maxChunkBytes >= 4
    ensures AllPieces(a + b, limits) == AllPieces(a, limits) + AllPieces(b, limits)
    decreases |a|
  {
    hide Pieces, ValidFrom;
    if a == [] {
      assert a + b == b;
    } else {
      assert (a + b)[0] == a[0] && (a + b)[1..] == a[1..] + b;
      AllPiecesConcat(a[1..], b, limits);
    }
  }

  lemma AllPiecesSplit(units: seq<Unit>, u: nat, limits: Limits)
    requires limits.maxChunkBytes >= 4 && u < |units| && units[u].Unit?
    ensures AllPieces(units, limits)
         == AllPieces(units[..u], limits)
            + (UnitPieces(units[u].content, limits, units[u].name)
               + AllPieces(units[u + 1..], limits))
  {
    hide Pieces, ValidFrom;
    var tail := units[u..];
    assert units == units[..u] + tail;
    AllPiecesConcat(units[..u], tail, limits);
    assert tail[0] == units[u] && tail[1..] == units[u + 1..];
  }

  lemma {:induction false} UnitsPlanConcat(a: seq<Unit>, b: seq<Unit>, limits: Limits)
    requires limits.maxChunkBytes >= 4
    ensures UnitsPlan(a + b, limits) == UnitsPlan(a, limits) + UnitsPlan(b, limits)
    decreases |a|
  {
    hide Pieces, ValidFrom;
    if a == [] {
      assert a + b == b;
    } else {
      assert (a + b)[0] == a[0] && (a + b)[1..] == a[1..] + b;
      UnitsPlanConcat(a[1..], b, limits);
    }
  }

  /** When nothing else goes wrong, the first unit whose text cannot be had ends the run with its error, and
      the pieces of the units before it are left. */
  lemma BrokenUnitEnds(units: seq<Unit>, u: nat, limits: Limits, budget: Budget, sink: Sink)
    requires limits.maxChunkBytes >= 4 && u < |units| && units[u].Broken?
    requires AllReadable(units[..u]) && forall n :: budget.control(n).None?
    requires |sink.chunks| + |AllPieces(units[..u], limits)| <= budget.maxChunks
    requires sink.outputBytes + BytesOf(AllPieces(units[..u], limits)) <= budget.maxOutputBytes
    ensures var run, pieces := Execute(UnitsPlan(units, limits), budget, sink),
                               AllPieces(units[..u], limits);
            && run.error == Some(units[u].error)
            && (forall k :: 0 <= k < |pieces| ==> pieces[k].Piece?)
            && run.sink.chunks == sink.chunks + Numbered(pieces, |sink.chunks|)
  {
    hide Pieces, ValidFrom, PiecesOf, UnitsPlan, AllPieces, Execute, BytesOf, Numbered, RejectsNothing;
    var before, tail := units[..u], units[u..];
    var plan := UnitsPlan(before, limits);
    assert units == before + tail;
    UnitsPlanConcat(before, tail, limits);
    ExecuteConcat(plan, UnitsPlan(tail, limits), budget, sink);
    AllPiecesArePieces(before, limits);
    BytesOfPieces(plan);
    UnitsRejectNothing(before, limits);
    SucceedsIff(plan, budget, sink);
    assert plan[..|plan|] == plan;
    BrokenFirst(tail, limits, budget, Execute(plan, budget, sink).sink);
  }

  lemma BrokenFirst(units: seq<Unit>, limits: Limits, budget: Budget, sink: Sink)
    requires limits.maxChunkBytes >= 4 && units != [] && units[0].Broken?
    requires forall n :: budget.control(n).None?
    ensures var run := Execute(UnitsPlan(units, limits), budget, sink);
            run.error == Some(units[0].error) && run.sink.chunks == sink.chunks
  {
    hide Execute, Pieces, ValidFrom;
    var gates, rest := Gates(units[0].checks), UnitsPlan(units[1..], limits);
    assert UnitsPlan(units, limits) == gates + ([Reject(units[0].error)] + rest);
    ExecuteConcat(gates, [Reject(units[0].error)] + rest, budget, sink);
    GatesPass(units[0].checks, budget, sink);
    ExecuteCons(Reject(units[0].error), rest, budget, Execute(gates, budget, sink).sink);
  }

  lemma {:induction false} GatesPass(n: nat, budget: Budget, sink: Sink)
    requires forall k :: budget.control(k).None?
    ensures Execute(Gates(n), budget, sink)
         == Outcome(Sink(sink.chunks, sink.outputBytes, sink.checks + n), None)
    decreases n
  {
    hide Execute;
    if n == 0 {
      ExecuteNothing(budget, sink);
      assert Gates(0) == [];
    } else {
      assert Gates(n) == [Gate] + Gates(n - 1);
      ExecuteCons(Gate, Gates(n - 1), budget, sink);
      GatesPass(n - 1, budget, Advance(Gate, sink));
    }
  }

  function AllChecks(units: seq<Unit>): nat {
    if units == [] then 0 else units[0].checks + AllChecks(units[1..])
  }

  /** Units that are all readable are checked as often as each asks for, and once for each piece. */
  lemma {:induction false} ChecksOfUnits(units: seq<Unit>, limits: Limits)
    requires limits.maxChunkBytes >= 4 && AllReadable(units)
    ensures |UnitsPlan(units, limits)| == AllChecks(units) + |AllPieces(units, limits)|
    decreases |units|
  {
    hide Pieces, ValidFrom;
    if units != [] {
      ChecksOfUnits(units[1..], limits);
    }
  }
}
