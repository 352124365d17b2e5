/**
 `wait_for_bounded_operation`: polling a native asynchronous operation under control. What the
 operation, its results and the control answer to each successive call is given in advance; the
 calls are recorded, so that the protocol can be stated on the record.
 */
module AsyncWait {
  import opened Wrappers
  import opened Execution

  datatype Status = Started | Completed | Canceled | Failed

  type Poll = Result<Status, ExtractionError>

  datatype Call = Check | QueryStatus | Cancel | ReadResults | Close

  predicate Running(answer: Poll) {
    answer == Ok(Started)
  }

  predicate Over(answer: Poll) {
    answer.Ok? && answer.value != Started
  }

  function Times(calls: seq<Call>, call: Call): nat {
    multiset(calls)[call]
  }

  predicate EndsWith(calls: seq<Call>, tail: seq<Call>) {
    |calls| >= |tail| && calls[|calls| - |tail|..] == tail
  }

  /** The record so far, while the operation is still running: every query said so, every check but
      the last passed, and the operation was cancelled when the last one failed. */
  ghost predicate Waiting(
    status: nat -> Poll, control: nat -> Option<ControlError>, calls: seq<Call>, polls: nat,
    checks: nat, fault: Option<ControlError>)
  {
    && (forall k :: 0 <= k < polls ==> Running(status(k)))
    && (forall k :: 0 <= k < checks ==> k + 1 < checks || fault.None? ==> control(k).None?)
    && (fault.Some? ==> checks > 0 && control(checks - 1) == fault)
    && checks <= polls && (fault.None? ==> checks == polls)
    && Times(calls, QueryStatus) == polls && Times(calls, Check) == checks
    && Times(calls, Cancel) == (if fault.Some? then 1 else 0)
    && Times(calls, ReadResults) == 0 && Times(calls, Close) == 0
  }

  function ChecksAfter(answer: Poll): nat {
    if answer == Ok(Completed) then 2 else if Over(answer) then 1 else 0
  }

  /** What the source promises of the record of a complete wait, `polls` queries and `checks` checks
      long. */
  ghost predicate Kept<T>(
    status: nat -> Poll, results: Result<T, ExtractionError>,
    control: nat -> Option<ControlError>, calls: seq<Call>, polls: nat, checks: nat,
    result: Result<T, ExtractionError>)
  {
    && polls > 0 && checks > 0
    && Times(calls, QueryStatus) == polls && Times(calls, Check) == checks
    && var answer, fault := status(polls - 1), control(checks - 1);
       // The operation is watched until a query says something else than "started".
       && (forall k :: 0 <= k < polls - 1 ==> Running(status(k))) && !Running(answer)
       // Nothing is checked after a check fails, and the error of that check is returned.
       && (forall k :: 0 <= k < checks - 1 ==> control(k).None?)
       && (fault.Some? ==> result == Err(Stopped(fault.value)))
       // It is cancelled at most once: when a check fails while it may be running, or when a query
       // fails and no check has.
       && Times(calls, Cancel) <= 1
       && (Times(calls, Cancel) == 1 <==>
             answer.Err? || (fault.Some? && !EndsWith(calls, [Check, Close])))
       // It is closed exactly when it is known to be over: once, and last of all.
       && Times(calls, Close) == (if Over(answer) then 1 else 0)
       && (Over(answer) ==> EndsWith(calls, [Close]))
       // No check is left out: one before each query, one more when the operation is over, and one
       // after its results have been read; only a failed check is the last.
       && checks <= polls + ChecksAfter(answer)
       && (fault.None? ==> checks == polls + ChecksAfter(answer))
       // Results are read at most once: exactly when the operation has completed and no check up to
       // then has failed.
       && Times(calls, ReadResults) <= 1
       && (Times(calls, ReadResults) == 1 <==> answer == Ok(Completed) && checks == polls + 2)
       && (Times(calls, ReadResults) == 1 ==> EndsWith(calls, [Check, ReadResults, Check, Close]))
       // They are returned only if the check after reading them passes too.
       && (result.Ok? ==> Times(calls, ReadResults) == 1 && fault.None? && result == results)
       && (fault.None? ==>
             && (answer.Err? ==> result == Err(answer.error))
             && (answer == Ok(Completed) ==> result == results)
             && (Over(answer) && answer != Ok(Completed) ==> result == Err(OcrProviderFailed)))
  }

  method WaitForBoundedOperation<T>(
    status: nat -> Poll, results: Result<T, ExtractionError>,
    control: nat -> Option<ControlError>, ghost end: nat)
    returns (result: Result<T, ExtractionError>, calls: seq<Call>, polls: nat, checks: nat)
    requires !Running(status(end))
    ensures Kept(status, results, control, calls, polls, checks, result)
  {
    hide Kept, Waiting, ReadyToQuery;
    calls, polls, checks := [], 0, 0;
    var pending: Option<ControlError> := None;
    NothingCalled(status, control);
    while true
      invariant Waiting(status, control, calls, polls, checks, pending) && polls <= end
      decreases end - polls
    {
      CheckedFirst(status, control, calls, polls, checks, pending);
      if pending.None? {
        pending := control(checks);
        calls, checks := calls + [Check], checks + 1;
        if pending.Some? {
          calls := calls + [Cancel];
        }
      }
      var answer := status(polls);
      if !Running(answer) {
        result, calls, checks := Conclude(status, results, control, calls, polls + 1, checks,
                                          pending);
        polls := polls + 1;
        return;
      }
      QueriedOnce(status, control, calls, polls, checks, pending);
      calls, polls := calls + [QueryStatus], polls + 1;
    }
  }

  lemma NothingCalled(status: nat -> Poll, control: nat -> Option<ControlError>)
    ensures Waiting(status, control, [], 0, 0, None)
  {
  }

  lemma CheckedFirst(
    status: nat -> Poll, control: nat -> Option<ControlError>, calls: seq<Call>, polls: nat,
    checks: nat, fault: Option<ControlError>)
    requires Waiting(status, control, calls, polls, checks, fault)
    ensures fault.Some? ==> ReadyToQuery(status, control, calls, polls, checks, fault)
    ensures fault.None? && control(checks).None? ==>
              ReadyToQuery(status, control, calls + [Check], polls, checks + 1, None)
    ensures fault.None? && control(checks).Some? ==>
              ReadyToQuery(status, control, calls + [Check] + [Cancel], polls, checks + 1,
                           control(checks))
  {
  }

  lemma QueriedOnce(
    status: nat -> Poll, control: nat -> Option<ControlError>, calls: seq<Call>, polls: nat,
    checks: nat, fault: Option<ControlError>)
    requires ReadyToQuery(status, control, calls, polls, checks, fault) && Running(status(polls))
    ensures Waiting(status, control, calls + [QueryStatus], polls + 1, checks, fault)
  {
  }

  /** The rest of a turn in which the last query says something else than "started". */
  method Conclude<T>(
    status: nat -> Poll, results: Result<T, ExtractionError>,
    control: nat -> Option<ControlError>, before: seq<Call>, polls: nat, checksBefore: nat,
    earlier: Option<ControlError>)
    returns (result: Result<T, ExtractionError>, calls: seq<Call>, checks: nat)
    requires polls > 0 && ReadyToQuery(status, control, before, polls - 1, checksBefore, earlier)
    requires !Running(status(polls - 1))
    ensures Kept(status, results, control, calls, polls, checks, result)
  {
    hide Kept, ReadyToQuery;
    var answer, pending := status(polls - 1), earlier;
    calls, checks := before + [QueryStatus], checksBefore;
    if answer.Err? {
      if pending.None? {
        calls := calls + [Cancel];
      }
      result := if pending.Some? then Err(Stopped(pending.value)) else Err(answer.error);
      QueryFailed(status, results, control, before, polls, checks, pending, result);
      return;
    }
    if answer.value == Completed {
      if pending.Some? {
        calls := calls + [Close];
        result := Err(Stopped(pending.value));
        ClosedAfterFault(status, results, control, before, polls, checks, pending, result);
        return;
      }
      pending := control(checks);
      calls, checks := calls + [Check], checks + 1;
      if pending.Some? {
        calls := calls + [Close];
        result := Err(Stopped(pending.value));
        ClosedAfterCheck(status, results, control, before, polls, checks, result);
        return;
      }
      calls := calls + [ReadResults];
      pending := control(checks);
      calls, checks := calls + [Check], checks + 1;
      calls := calls + [Close];
      result := if pending.Some? then Err(Stopped(pending.value)) else results;
      assert calls == before + [QueryStatus, Check, ReadResults, Check, Close];
      ClosedAfterResults(status, results, control, before, polls, checks, result);
      return;
    }
    if pending.Some? {
      calls := calls + [Close];
      result := Err(Stopped(pending.value));
      ClosedAfterFault(status, results, control, before, polls, checks, pending, result);
      return;
    }
    pending := control(checks);
    calls, checks := calls + [Check], checks + 1;
    calls := calls + [Close];
    result := if pending.Some? then Err(Stopped(pending.value)) else Err(OcrProviderFailed);
    ClosedAfterCheck(status, results, control, before, polls, checks, result);
  }

  /** The record just before a query, when the check before it has been made. */
  ghost predicate ReadyToQuery(
    status: nat -> Poll, control: nat -> Option<ControlError>, calls: seq<Call>, polls: nat,
    checks: nat, fault: Option<ControlError>)
  {
    && (forall k :: 0 <= k < polls ==> Running(status(k)))
    && (forall k :: 0 <= k < checks ==> k + 1 < checks || fault.None? ==> control(k).None?)
    && checks > 0 && (fault.Some? ==> control(checks - 1) == fault)
    && checks <= polls + 1 && (fault.None? ==> checks == polls + 1)
    && Times(calls, QueryStatus) == polls && Times(calls, Check) == checks
    && Times(calls, Cancel) == (if fault.Some? then 1 else 0)
    && Times(calls, ReadResults) == 0 && Times(calls, Close) == 0
  }

  lemma QueryFailed<T>(
    status: nat -> Poll, results: Result<T, ExtractionError>,
    control: nat -> Option<ControlError>, before: seq<Call>, polls: nat, checks: nat,
    fault: Option<ControlError>, result: Result<T, ExtractionError>)
    requires polls > 0 && ReadyToQuery(status, control, before, polls - 1, checks, fault)
    requires status(polls - 1).Err?
    requires result == if fault.Some? then Err(Stopped(fault.value))
                       else Err(status(polls - 1).error)
    ensures var calls := before + [QueryStatus];
            Kept(status, results, control, if fault.None? then calls + [Cancel] else calls, polls,
                 checks, result)
  {
  }

  lemma ClosedAfterFault<T>(
    status: nat -> Poll, results: Result<T, ExtractionError>,
    control: nat -> Option<ControlError>, before: seq<Call>, polls: nat, checks: nat,
    fault: Option<ControlError>, result: Result<T, ExtractionError>)
    requires polls > 0 && ReadyToQuery(status, control, before, polls - 1, checks, fault)
    requires Over(status(polls - 1)) && fault.Some? && result == Err(Stopped(fault.value))
    ensures Kept(status, results, control, before + [QueryStatus] + [Close], polls, checks, result)
  {
    var calls := before + [QueryStatus] + [Close];
    assert calls[|calls| - 2..] == [QueryStatus, Close];
  }

  lemma ClosedAfterCheck<T>(
    status: nat -> Poll, results: Result<T, ExtractionError>,
    control: nat -> Option<ControlError>, before: seq<Call>, polls: nat, checks: nat,
    result: Result<T, ExtractionError>)
    requires polls > 0 && checks > 0
    requires ReadyToQuery(status, control, before, polls - 1, checks - 1, None)
    requires Over(status(polls - 1))
    requires status(polls - 1) == Ok(Completed) ==> control(checks - 1).Some?
    requires result == if control(checks - 1).Some? then Err(Stopped(control(checks - 1).value))
                       else Err(OcrProviderFailed)
    ensures Kept(status, results, control, before + [QueryStatus] + [Check] + [Close], polls,
                 checks, result)
  {
    var calls := before + [QueryStatus] + [Check] + [Close];
    assert calls[|calls| - 2..] == [Check, Close];
  }

  lemma ClosedAfterResults<T>(
    status: nat -> Poll, results: Result<T, ExtractionError>,
    control: nat -> Option<ControlError>, before: seq<Call>, polls: nat, checks: nat,
    result: Result<T, ExtractionError>)
    requires polls > 0 && checks > 1
    requires ReadyToQuery(status, control, before, polls - 1, checks - 2, None)
    requires status(polls - 1) == Ok(Completed) && control(checks - 2).None?
    requires result == if control(checks - 1).Some? then Err(Stopped(control(checks - 1).value))
                       else results
    ensures Kept(status, results, control,
                 before + [QueryStatus, Check, ReadResults, Check, Close], polls, checks, result)
  {
    var calls := before + [QueryStatus, Check, ReadResults, Check, Close];
    assert calls[|calls| - 4..] == [Check, ReadResults, Check, Close];
    assert calls[|calls| - 2..] == [Check, Close];
    assert calls[|calls| - 1..] == [Close];
  }
}
