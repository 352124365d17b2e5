/**
 The gate that admits one native OCR call at a time. A caller that is refused while the gate is busy
 may reserve it: for a while after the release nobody else gets in.
 */
module OcrGate {
  import opened Wrappers

  const RESERVATION_TTL: nat := 5_000_000_000

  datatype Owner = Job(databaseKey: nat, jobId: int) | DirectAdapter(id: nat)

  datatype Phase = Free | Held | Cleanup

  datatype Reservation = Reservation(owner: Owner, expiresAt: nat)

  datatype Gate = Gate(phase: Phase, reservation: Option<Reservation>)

  const INITIAL := Gate(Free, None)

  /** Whether an attempt is admitted: the gate is free, and not reserved for somebody else. */
  predicate Admits(gate: Gate, owner: Owner, now: nat) {
    && gate.phase.Free?
    && (gate.reservation.None? || gate.reservation.value.expiresAt <= now
        || gate.reservation.value.owner == owner)
  }

  /** The gate after an attempt. */
  function AfterAttempt(gate: Gate, owner: Owner, now: nat): Gate {
    if Admits(gate, owner, now) then Gate(Held, None)
    else if !gate.phase.Free? && gate.reservation.None? then
      gate.(reservation := Some(Reservation(owner, now)))
    else gate
  }

  function AfterRelease(gate: Gate, now: nat): Gate {
    Gate(Free,
         if gate.reservation.None? then None
         else Some(Reservation(gate.reservation.value.owner, now + RESERVATION_TTL)))
  }

  /** The gate after a permit is dropped: it is released at once unless a worker is active. */
  function AfterReturn(gate: Gate, workerActive: bool, now: nat): Gate {
    if !gate.phase.Held? then gate
    else if workerActive then gate.(phase := Cleanup)
    else AfterRelease(gate, now)
  }

  function AfterCleanup(gate: Gate, now: nat): Gate {
    if gate.phase.Cleanup? then AfterRelease(gate, now) else gate
  }

  /** `NativeOcrGateState`, with the operations of the gate that holds it under its lock. */
  class GateState {
    var phase: Phase
    var reservation: Option<Reservation>

    constructor ()
      ensures State() == INITIAL
    {
      phase, reservation := Free, None;
    }

    function State(): Gate
      reads this
    {
      Gate(phase, reservation)
    }

    /** `try_acquire_at`. */
    method TryAcquireAt(owner: Owner, now: nat) returns (acquired: bool)
      modifies this
      ensures acquired == Admits(old(State()), owner, now)
      ensures State() == AfterAttempt(old(State()), owner, now)
    {
      if phase != Free {
        if reservation.None? {
          reservation := Some(Reservation(owner, now));
        }
        return false;
      }
      if reservation.Some? && reservation.value.expiresAt <= now {
        reservation := None;
      }
      if reservation.Some? && reservation.value.owner != owner {
        return false;
      }
      reservation := None;
      phase := Held;
      return true;
    }

    /** `release_at`. */
    method ReleaseAt(now: nat)
      modifies this
      ensures State() == AfterRelease(old(State()), now)
    {
      phase := Free;
      if reservation.Some? {
        reservation := Some(reservation.value.(expiresAt := now + RESERVATION_TTL));
      }
    }

    /** `release_after_provider_return` with what it reads from the worker flag. */
    method ReleaseAfterProviderReturn(workerActive: bool, now: nat)
      modifies this
      ensures State() == AfterReturn(old(State()), workerActive, now)
    {
      if phase != Held {
        return;
      }
      phase := Cleanup;
      if !workerActive {
        ReleaseAt(now);
      }
    }

    /** `finish_cleanup`. */
    method FinishCleanup(now: nat)
      modifies this
      ensures State() == AfterCleanup(old(State()), now)
    {
      if phase == Cleanup {
        ReleaseAt(now);
      }
    }
  }
}
