/** `read_bounded_source`: reading a source of a declared size under control and a byte limit. */
module Source {
  import opened Wrappers
  import opened Utf8
  import opened Execution
  import opened Session
  import opened Units

  /** What the successive calls of `read` return; an empty read is the end of the source, and so
      is the end of this list. */
  datatype Read = Data(bytes: Bytes) | Failed

  predicate AtEnd(input: seq<Read>) {
    input == [] || input[0] == Data([])
  }

  /** The bytes the source delivers before its end, unless a read fails first. */
  function Delivered(input: seq<Read>): Option<Bytes> {
    if AtEnd(input) then Some([])
    else if input[0].Failed? then None
    else
      After(input[0].bytes, Delivered(input[1..]))
  }

  function After(first: Bytes, rest: Option<Bytes>): Option<Bytes> {
    if rest.None? then None else Some(first + rest.value)
  }

  /** The run of a read loop that has `sofar` already. */
  function ReadPlan(input: seq<Read>, sofar: nat, expected: nat, limits: Limits): seq<Step> {
    if AtEnd(input) then
      [Gate, Gate] + if sofar != expected then [Reject(SourceChanged)] else []
    else if input[0].Failed? then [Gate, Reject(SourceReadFailed)]
    else if sofar + |input[0].bytes| > limits.maxSourceBytes then [Gate, Reject(SourceTooLarge)]
    else [Gate] + ReadPlan(input[1..], sofar + |input[0].bytes|, expected, limits)
  }

  /** The read loop accepts a source exactly when all reads succeed and deliver, within the limit,
      the number of bytes that was declared. */
  lemma {:induction false} ReadAcceptsIff(
    input: seq<Read>, sofar: nat, expected: nat, limits: Limits)
    requires sofar <= limits.maxSourceBytes
    ensures RejectsNothing(ReadPlan(input, sofar, expected, limits))
            <==> && Delivered(input).Some?
                 && sofar + |Delivered(input).value| == expected
                 && expected <= limits.maxSourceBytes
    ensures HasNoPieces(ReadPlan(input, sofar, expected, limits))
    decreases |input|
  {
    var plan := ReadPlan(input, sofar, expected, limits);
    if AtEnd(input) {
      assert sofar != expected ==> plan[2].Reject?;
    } else if input[0].Failed? || sofar + |input[0].bytes| > limits.maxSourceBytes {
      assert plan[1].Reject?;
    } else {
      var more := sofar + |input[0].bytes|;
      var rest := ReadPlan(input[1..], more, expected, limits);
      ReadAcceptsIff(input[1..], more, expected, limits);
      assert plan == [Gate] + rest;
      RejectsLater(Gate, rest);
    }
  }

  /** Reads that all deliver something, this many bytes together. */
  predicate Delivers(input: seq<Read>, bytes: nat)
    decreases |input|
  {
    if input == [] then bytes == 0
    else
      && input[0].Data? && 0 < |input[0].bytes| <= bytes
      && Delivers(input[1..], bytes - |input[0].bytes|)
  }

  /** How reading goes after reads that deliver `bytes` within the limit, one check before each: what the
      next read is alone decides. */
  lemma {:induction false} ReadingEnds(
    before: seq<Read>, rest: seq<Read>, bytes: nat, sofar: nat, expected: nat, limits: Limits)
    requires Delivers(before, bytes) && sofar + bytes <= limits.maxSourceBytes
    ensures rest == [] || rest[0] == Data([]) ==>
              ReadPlan(before + rest, sofar, expected, limits)
              == Gates(|before| + 2)
                 + if sofar + bytes == expected then [] else [Reject(SourceChanged)]
    ensures rest != [] && rest[0].Failed? ==>
              ReadPlan(before + rest, sofar, expected, limits)
              == Gates(|before| + 1) + [Reject(SourceReadFailed)]
    ensures rest != [] && rest[0].Data?
            && sofar + bytes + |rest[0].bytes| > limits.maxSourceBytes ==>
              ReadPlan(before + rest, sofar, expected, limits)
              == Gates(|before| + 1) + [Reject(SourceTooLarge)]
    decreases |before|
  {
    if before == [] {
      assert before + rest == rest;
    } else {
      hide ReadPlan;
      var first := |before[0].bytes|;
      OneMoreRead(before, rest, sofar, expected, limits);
      ReadingEnds(before[1..], rest, bytes - first, sofar + first, expected, limits);
      OneMoreGate(|before|, [Reject(SourceReadFailed)]);
      OneMoreGate(|before|, [Reject(SourceTooLarge)]);
      OneMoreGate(|before| + 1, if sofar + bytes == expected then [] else [Reject(SourceChanged)]);
    }
  }

  lemma OneMoreRead(before: seq<Read>, rest: seq<Read>, sofar: nat, expected: nat, limits: Limits)
    requires before != [] && before[0].Data? && before[0].bytes != []
    requires sofar + |before[0].bytes| <= limits.maxSourceBytes
    ensures ReadPlan(before + rest, sofar, expected, limits)
         == [Gate] + ReadPlan(before[1..] + rest, sofar + |before[0].bytes|, expected, limits)
  {
    assert (before + rest)[0] == before[0] && (before + rest)[1..] == before[1..] + rest;
  }

  lemma OneMoreGate(n: nat, tail: seq<Step>)
    ensures [Gate] + (Gates(n) + tail) == Gates(n + 1) + tail
  {
  }

  lemma RejectsLater(step: Step, rest: seq<Step>)
    requires !step.Reject?
    ensures RejectsNothing([step] + rest) <==> RejectsNothing(rest)
  {
    var plan := [step] + rest;
    if RejectsNothing(plan) {
      forall k | 0 <= k < |rest| ensures !rest[k].Reject? {
        assert !plan[k + 1].Reject?;
      }
    }
  }

  method ReadBoundedSource(session: Session, input: seq<Read>, expected: nat, limits: Limits)
    returns (bytes: Bytes, error: Option<ExtractionError>)
    modifies session
    ensures Outcome(session.State(), error)
         == Execute(ReadPlan(input, 0, expected, limits), session.BudgetOf(limits),
                    old(session.State()))
    ensures error.None? ==> Delivered(input) == Some(bytes)
  {
    hide Execute;
    ghost var budget := session.BudgetOf(limits);
    ghost var goal := Execute(ReadPlan(input, 0, expected, limits), budget, session.State());
    bytes := [];
    var next := 0;
    assert input[0..] == input;
    AfterNothing(Delivered(input));
    while true
      invariant next <= |input|
      invariant goal == Execute(ReadPlan(input[next..], |bytes|, expected, limits), budget,
                                session.State())
      invariant Delivered(input)
             == After(bytes, Delivered(input[next..]))
      decreases |input| - next
    {
      ghost var rest := input[next..];
      ReadTurn(rest, |bytes|, expected, limits, budget, session.State());
      var stop := session.Check();
      if stop.Some? {
        return bytes, Some(Stopped(stop.value));
      }
      var read := if next < |input| then input[next] else Data([]);
      if read.Failed? {
        return bytes, Some(SourceReadFailed);
      }
      if |read.bytes| == 0 {
        assert bytes + [] == bytes;
        break;
      }
      var nextLength := |bytes| + |read.bytes|;
      if nextLength > limits.maxSourceBytes {
        return bytes, Some(SourceTooLarge);
      }
      AfterAfter(bytes, read.bytes, Delivered(rest[1..]));
      bytes := bytes + read.bytes;
      next := next + 1;
      assert input[next..] == rest[1..];
    }
    var stop := session.Check();
    if stop.Some? {
      return bytes, Some(Stopped(stop.value));
    }
    if |bytes| != expected {
      return bytes, Some(SourceChanged);
    }
    return bytes, None;
  }

  lemma AfterAfter(a: Bytes, b: Bytes, rest: Option<Bytes>)
    ensures After(a, After(b, rest)) == After(a + b, rest)
  {
    if rest.Some? {
      assert a + (b + rest.value) == a + b + rest.value;
    }
  }

  lemma AfterNothing(rest: Option<Bytes>)
    ensures After([], rest) == rest
  {
    if rest.Some? {
      assert [] + rest.value == rest.value;
    }
  }

  /** One turn of the read loop, read off its plan. */
  lemma ReadTurn(
    input: seq<Read>, sofar: nat, expected: nat, limits: Limits, budget: Budget, sink: Sink)
    ensures var checked := Advance(Gate, sink);
            var run := Execute(ReadPlan(input, sofar, expected, limits), budget, sink);
            && (budget.control(sink.checks).Some? ==>
                  run == Outcome(checked, Some(Stopped(budget.control(sink.checks).value))))
            && (budget.control(sink.checks).None? ==>
                  run == if AtEnd(input) then EndOfSource(sofar, expected, budget, checked)
                         else if input[0].Failed? then Outcome(checked, Some(SourceReadFailed))
                         else if sofar + |input[0].bytes| > limits.maxSourceBytes then
                           Outcome(checked, Some(SourceTooLarge))
                         else Execute(ReadPlan(input[1..], sofar + |input[0].bytes|, expected,
                                               limits), budget, checked))
  {
    hide Execute;
    var checked := Advance(Gate, sink);
    if AtEnd(input) {
      var tail := if sofar != expected then [Reject(SourceChanged)] else [];
      assert ReadPlan(input, sofar, expected, limits) == [Gate] + ([Gate] + tail);
      ExecuteCons(Gate, [Gate] + tail, budget, sink);
      ExecuteCons(Gate, tail, budget, checked);
      ExecuteNothing(budget, Advance(Gate, checked));
      if sofar != expected {
        ExecuteCons(Reject(SourceChanged), [], budget, Advance(Gate, checked));
        assert tail == [Reject(SourceChanged)] + [];
      }
    } else if input[0].Failed? {
      RefuseAfterCheck(SourceReadFailed, budget, sink);
    } else if sofar + |input[0].bytes| > limits.maxSourceBytes {
      RefuseAfterCheck(SourceTooLarge, budget, sink);
    } else {
      ExecuteCons(Gate, ReadPlan(input[1..], sofar + |input[0].bytes|, expected, limits), budget,
                  sink);
    }
  }

  function EndOfSource(sofar: nat, expected: nat, budget: Budget, sink: Sink): Outcome {
    var checked := Advance(Gate, sink);
    if budget.control(sink.checks).Some? then
      Outcome(checked, Some(Stopped(budget.control(sink.checks).value)))
    else if sofar != expected then Outcome(checked, Some(SourceChanged))
    else Outcome(checked, None)
  }

  /** What is delivered is what the reads bring, in their order. */
  lemma {:induction false} DeliveredInOrder(before: seq<Read>, bytes: nat, rest: seq<Read>)
    requires Delivers(before, bytes)
    ensures Delivered(before).Some? && |Delivered(before).value| == bytes
    ensures Delivered(before + rest)
         == if Delivered(rest).None? then None
            else Some(Delivered(before).value + Delivered(rest).value)
    decreases |before|
  {
    if before == [] {
      assert before + rest == rest;
      AfterNothing(Delivered(rest));
    } else {
      assert (before + rest)[0] == before[0] && (before + rest)[1..] == before[1..] + rest;
      DeliveredInOrder(before[1..], bytes - |before[0].bytes|, rest);
      AfterAfter(before[0].bytes, Delivered(before[1..]).value, Delivered(rest));
    }
  }

  lemma OneReadDelivers(bytes: Bytes)
    ensures Delivered([Data(bytes)]) == Some(bytes)
  {
    if bytes != [] {
      assert [Data(bytes)][1..] == [];
      AfterNothing(Some([]));
      assert bytes + [] == bytes;
    }
  }
}
