/** `reduce_action_journal`: the state of a rename plan, derived from its immutable events. */
module Journal {
  import opened Wrappers

  const U64_MAX: nat := 0xFFFF_FFFF_FFFF_FFFF

  datatype State =
    | Previewed
    | ExecuteRequested
    | DirectRenameIntent
    | Executed
    | UndoRequested
    | UndoRenameIntent
    | Undone
    | NeedsAttention

  datatype Kind =
    | PreviewCreated
    | ExecuteRequest
    | ExecuteRequestNotStarted
    | DirectIntent
    | ExecutionCompleted
    | ExecutionNotApplied
    | ExecutionNeedsAttention
    | UndoRequest
    | UndoRequestNotStarted
    | UndoIntent
    | UndoCompleted
    | UndoNotApplied
    | UndoNeedsAttention

  datatype Event = Event(sequence: nat, kind: Kind)

  datatype Fault = EmptyJournal | NonMonotonicSequence | InvalidInitialEvent | InvalidTransition

  /** The transition table: the state an event leads to, if it is allowed. */
  function Next(state: State, kind: Kind): Option<State> {
    match (state, kind)
    case (Previewed, ExecuteRequest) => Some(ExecuteRequested)
    case (ExecuteRequested, ExecuteRequestNotStarted) => Some(Previewed)
    case (ExecuteRequested, DirectIntent) => Some(DirectRenameIntent)
    case (DirectRenameIntent, ExecutionCompleted) => Some(Executed)
    case (DirectRenameIntent, ExecutionNotApplied) => Some(Previewed)
    case (DirectRenameIntent, ExecutionNeedsAttention) => Some(NeedsAttention)
    case (Executed, UndoRequest) => Some(UndoRequested)
    case (UndoRequested, UndoRequestNotStarted) => Some(Executed)
    case (UndoRequested, UndoIntent) => Some(UndoRenameIntent)
    case (UndoRenameIntent, UndoCompleted) => Some(Undone)
    case (UndoRenameIntent, UndoNotApplied) => Some(Executed)
    case (UndoRenameIntent, UndoNeedsAttention) => Some(NeedsAttention)
    case _ => None
  }

  function SaturatingSuccessor(n: nat): nat {
    if n >= U64_MAX then U64_MAX else n + 1
  }

  /** The journal as it grows: the state after a list of events is found from the state after all
      but the last one. */
  function Reduced(events: seq<Event>): Result<State, Fault> {
    if events == [] then Err(EmptyJournal)
    else
      var last := events[|events| - 1];
      if |events| == 1 then
        if last.sequence != 1 || last.kind != PreviewCreated then Err(InvalidInitialEvent)
        else Ok(Previewed)
      else
        var before := Reduced(events[..|events| - 1]);
        if before.Err? then before
        else if last.sequence != SaturatingSuccessor(events[|events| - 2].sequence) then
          Err(NonMonotonicSequence)
        else if Next(before.value, last.kind).None? then Err(InvalidTransition)
        else Ok(Next(before.value, last.kind).value)
  }

  /** An error of a journal is an error of every journal that extends it. */
  lemma {:induction false} ErrorsStay(events: seq<Event>, n: nat)
    requires 0 < n <= |events| && Reduced(events[..n]).Err?
    ensures Reduced(events) == Reduced(events[..n])
    decreases |events|
  {
    if n < |events| {
      var front := events[..|events| - 1];
      assert front[..n] == events[..n];
      ErrorsStay(front, n);
    } else {
      assert events[..n] == events;
    }
  }

  method ReduceActionJournal(events: seq<Event>) returns (result: Result<State, Fault>)
    ensures result == Reduced(events)
  {
    if events == [] {
      return Err(EmptyJournal);
    }
    assert events[..1][0] == events[0];
    if events[0].sequence != 1 || events[0].kind != PreviewCreated {
      ErrorsStay(events, 1);
      return Err(InvalidInitialEvent);
    }
    var previousSequence, state := events[0].sequence, Previewed;
    for next := 1 to |events|
      invariant Reduced(events[..next]) == Ok(state)
      invariant previousSequence == events[next - 1].sequence
    {
      var event := events[next];
      assert events[..next + 1][..next] == events[..next];
      if event.sequence != SaturatingSuccessor(previousSequence) {
        ErrorsStay(events, next + 1);
        return Err(NonMonotonicSequence);
      }
      var following := Next(state, event.kind);
      if following.None? {
        ErrorsStay(events, next + 1);
        return Err(InvalidTransition);
      }
      state := following.value;
      previousSequence := event.sequence;
    }
    assert events[..|events|] == events;
    return Ok(state);
  }

  /** Every prefix of an accepted journal is accepted. */
  lemma PrefixAccepted(events: seq<Event>, n: nat)
    requires Reduced(events).Ok? && 0 < n <= |events|
    ensures Reduced(events[..n]).Ok?
  {
    if Reduced(events[..n]).Err? {
      ErrorsStay(events, n);
      assert false;
    }
  }

  /** Accepted journals are numbered 1, 2, 3, ...; only at the end of the 64-bit range would the
      numbers stay. */
  lemma {:induction false} AcceptedAreNumbered(events: seq<Event>, k: nat)
    requires Reduced(events).Ok? && k < |events|
    ensures events[k].sequence == if k < U64_MAX then k + 1 else U64_MAX
    decreases |events|, k
  {
    PrefixAccepted(events, k + 1);
    var prefix := events[..k + 1];
    if k > 0 {
      AcceptedAreNumbered(events, k - 1);
      assert prefix[k - 1] == events[k - 1];
    }
  }

  /** Undone plans and plans that need attention are closed: no event extends them. */
  lemma TerminalStatesAreFinal(events: seq<Event>, more: Event)
    requires Reduced(events) == Ok(Undone) || Reduced(events) == Ok(NeedsAttention)
    ensures Reduced(events + [more]).Err?
  {
    assert (events + [more])[..|events|] == events;
  }

  /** How often a kind of event occurs. */
  function Count(events: seq<Event>, kind: Kind): nat {
    if events == [] then 0
    else Count(events[..|events| - 1], kind)
         + if events[|events| - 1].kind == kind then 1 else 0
  }

  function Pending(here: bool): nat {
    if here then 1 else 0
  }

  /** The books of a plan balance in every state. */
  predicate Balanced(events: seq<Event>, state: State) {
    // Every request was answered, by an intent or by not being started, unless it is pending.
    && Count(events, ExecuteRequest)
       == Count(events, ExecuteRequestNotStarted) + Count(events, DirectIntent)
          + Pending(state.ExecuteRequested?)
    && Count(events, UndoRequest)
       == Count(events, UndoRequestNotStarted) + Count(events, UndoIntent)
          + Pending(state.UndoRequested?)
    // Every intent was resolved, by one of three outcomes, unless it is pending.
    && Count(events, DirectIntent)
       == Count(events, ExecutionCompleted) + Count(events, ExecutionNotApplied)
          + Count(events, ExecutionNeedsAttention) + Pending(state.DirectRenameIntent?)
    && Count(events, UndoIntent)
       == Count(events, UndoCompleted) + Count(events, UndoNotApplied)
          + Count(events, UndoNeedsAttention) + Pending(state.UndoRenameIntent?)
    // The plan was previewed once, and needs attention when some outcome said so.
    && Count(events, PreviewCreated) == 1
    && Count(events, ExecutionNeedsAttention) + Count(events, UndoNeedsAttention)
       == Pending(state.NeedsAttention?)
    // It was executed at most once, and undone at most once and only after that.
    && Count(events, UndoCompleted) <= Count(events, ExecutionCompleted) <= 1
    && (Count(events, UndoCompleted) == 1 <==> state.Undone?)
    // Except when attention is needed, the state alone tells whether the rename is in effect.
    && (!state.NeedsAttention? ==>
          (Applied(state) <==> Count(events, ExecutionCompleted) > Count(events, UndoCompleted)))
    // Before it was executed nothing of the undo can have happened.
    && (Count(events, ExecutionCompleted) == 0 ==> Count(events, UndoRequest) == 0)
  }

  /** Whether the file has its new name. */
  predicate Applied(state: State) {
    state.Executed? || state.UndoRequested? || state.UndoRenameIntent?
  }

  lemma {:induction false} BooksBalance(events: seq<Event>)
    requires Reduced(events).Ok?
    ensures Balanced(events, Reduced(events).value)
    decreases |events|
  {
    hide Count, Balanced;
    var front := events[..|events| - 1];
    if |events| > 1 {
      BooksBalance(front);
      NextKeepsBalance(front, Reduced(front).value, events[|events| - 1]);
      assert front + [events[|events| - 1]] == events;
    } else {
      PreviewBalances(events[0]);
      assert events == [events[0]];
    }
  }

  lemma PreviewBalances(preview: Event)
    requires preview.kind == PreviewCreated
    ensures Balanced([preview], Previewed)
  {
    assert [preview][..0] == [];
  }

  lemma CountOneMore(events: seq<Event>, more: Event, kind: Kind)
    ensures Count(events + [more], kind) == Count(events, kind) + if more.kind == kind then 1 else 0
  {
    assert (events + [more])[..|events|] == events;
  }

  lemma NextKeepsBalance(events: seq<Event>, state: State, more: Event)
    requires Balanced(events, state) && Next(state, more.kind).Some?
    ensures Balanced(events + [more], Next(state, more.kind).value)
  {
    hide Count;
    forall kind ensures Count(events + [more], kind)
                     == Count(events, kind) + if more.kind == kind then 1 else 0
    {
      CountOneMore(events, more, kind);
    }
  }

  lemma NextOnlyIfBalanced(events: seq<Event>, state: State, more: Event, after: State)
    requires Balanced(events, state) && Balanced(events + [more], after)
    ensures Next(state, more.kind) == Some(after)
  {
    hide Count;
    forall kind ensures Count(events + [more], kind)
                     == Count(events, kind) + if more.kind == kind then 1 else 0
    {
      CountOneMore(events, more, kind);
    }
  }

  /** The books decide what may follow: a journal can be extended by an event with the next number
      exactly when the books still balance in some state, which is then the state; and otherwise the
      number is reported first. */
  lemma ExtendedIffBalanced(events: seq<Event>, more: Event, after: State)
    requires Reduced(events).Ok?
    ensures Reduced(events + [more]) == Ok(after)
            <==> more.sequence == (if |events| < U64_MAX then |events| + 1 else U64_MAX)
                 && Balanced(events + [more], after)
    ensures Reduced(events + [more]).Err? ==>
              Reduced(events + [more])
              == Err(if more.sequence == (if |events| < U64_MAX then |events| + 1 else U64_MAX)
                     then InvalidTransition else NonMonotonicSequence)
  {
    hide Balanced, Count, Reduced, Next;
    var longer := events + [more];
    OneMoreEvent(events, more);
    BooksBalance(events);
    if Reduced(longer).Ok? {
      BooksBalance(longer);
    }
    if Balanced(longer, after) {
      NextOnlyIfBalanced(events, Reduced(events).value, more, after);
    }
  }

  lemma OneMoreEvent(events: seq<Event>, more: Event)
    requires Reduced(events).Ok?
    ensures var after := Next(Reduced(events).value, more.kind);
            Reduced(events + [more])
            == if more.sequence != (if |events| < U64_MAX then |events| + 1 else U64_MAX) then
                 Err(NonMonotonicSequence)
               else if after.None? then Err(InvalidTransition)
               else Ok(after.value)
  {
    hide Next, Reduced;
    WrongStart(events);
    assert (events + [more])[..|events|] == events;
    LastEvent(events + [more]);
    AcceptedAreNumbered(events, |events| - 1);
  }

  /** A journal that does not start with a preview numbered 1 is refused for its start, whatever
      follows. */
  lemma WrongStart(events: seq<Event>)
    ensures events == [] ==> Reduced(events) == Err(EmptyJournal)
    ensures events != [] && events[0] != Event(1, PreviewCreated) ==>
              Reduced(events) == Err(InvalidInitialEvent)
  {
    if events != [] && events[0] != Event(1, PreviewCreated) {
      assert events[..1][0] == events[0];
      ErrorsStay(events, 1);
    }
  }

  lemma LastEvent(events: seq<Event>)
    requires |events| > 1 && Reduced(events[..|events| - 1]).Ok?
    ensures var n := |events| - 1;
            var after := Next(Reduced(events[..n]).value, events[n].kind);
            Reduced(events)
            == if events[n].sequence != SaturatingSuccessor(events[n - 1].sequence) then
                 Err(NonMonotonicSequence)
               else if after.None? then Err(InvalidTransition)
               else Ok(after.value)
  {
    hide Next;
  }

  predicate NumberedAt(events: seq<Event>, k: nat)
    requires k < |events|
  {
    events[k].sequence == if k < U64_MAX then k + 1 else U64_MAX
  }

  ghost predicate SomeBalance(events: seq<Event>) {
    exists state :: Balanced(events, state)
  }

  /** The reduction without the transition table: a journal is accepted if and only if its events are
      numbered from 1 and the books balance, in some state, after each of them; the state is then the one
      in which they balance in the end. */
  lemma {:induction false} AcceptedIffBalanced(events: seq<Event>)
    ensures Reduced(events).Ok?
            <==> && events != [] && (forall k :: 0 <= k < |events| ==> NumberedAt(events, k))
                 && (forall n :: 0 < n <= |events| ==> SomeBalance(events[..n]))
    ensures Reduced(events).Ok? ==>
              forall state :: Reduced(events) == Ok(state) <==> Balanced(events, state)
    decreases |events|
  {
    hide Balanced, Count, Reduced;
    if |events| > 1 {
      var n := |events| - 1;
      var front, last := events[..n], events[n];
      assert events == front + [last];
      AcceptedIffBalanced(front);
      PrefixesBalance(events);
      if Reduced(front).Ok? {
        forall state {
          ExtendedIffBalanced(front, last, state);
        }
        assert Reduced(events).Ok? ==> Balanced(events, Reduced(events).value);
      } else {
        ErrorsStay(events, n);
      }
    } else {
      ShortJournal(events);
    }
  }

  /** The conditions on a journal are those on all but its last event, and on that one. */
  lemma PrefixesBalance(events: seq<Event>)
    requires |events| > 1
    ensures var front := events[..|events| - 1];
            && ((forall k :: 0 <= k < |events| ==> NumberedAt(events, k))
                <==> (forall k :: 0 <= k < |front| ==> NumberedAt(front, k))
                     && NumberedAt(events, |events| - 1))
            && ((forall n :: 0 < n <= |events| ==> SomeBalance(events[..n]))
                <==> (forall n :: 0 < n <= |front| ==> SomeBalance(front[..n]))
                     && SomeBalance(events))
  {
    hide SomeBalance;
    var front := events[..|events| - 1];
    assert events[..|events|] == events;
    assert forall n :: 0 < n <= |front| ==> front[..n] == events[..n];
    assert forall k :: 0 <= k < |front| ==> (NumberedAt(front, k) <==> NumberedAt(events, k));
    if forall n :: 0 < n <= |events| ==> SomeBalance(events[..n]) {
      forall n | 0 < n <= |front| ensures SomeBalance(front[..n]) {
        assert SomeBalance(events[..n]);
      }
    }
    if (forall n :: 0 < n <= |front| ==> SomeBalance(front[..n])) && SomeBalance(events) {
      forall n | 0 < n <= |events| ensures SomeBalance(events[..n]) {
        assert n < |events| ==> SomeBalance(front[..n]);
      }
    }
  }

  lemma ShortJournal(events: seq<Event>)
    requires |events| <= 1
    ensures Reduced(events).Ok?
            <==> && events != [] && (forall k :: 0 <= k < |events| ==> NumberedAt(events, k))
                 && (forall n :: 0 < n <= |events| ==> SomeBalance(events[..n]))
    ensures Reduced(events).Ok? ==>
              forall state :: Reduced(events) == Ok(state) <==> Balanced(events, state)
  {
    if events != [] {
      assert events[..1] == events && events == [events[0]];
      forall state
        ensures Balanced(events, state) <==> events[0].kind == PreviewCreated && state == Previewed
      {
        OnlyPreviewBalances(events[0], state);
      }
      hide Balanced;
      assert NumberedAt(events, 0) <==> events[0].sequence == 1;
      if events[0].kind == PreviewCreated {
        assert Balanced(events, Previewed) && SomeBalance(events);
      }
    }
  }

  lemma OnlyPreviewBalances(event: Event, state: State)
    ensures Balanced([event], state) <==> event.kind == PreviewCreated && state == Previewed
  {
    hide Count;
    forall kind ensures Count([event], kind) == if event.kind == kind then 1 else 0 {
      CountOne(event, kind);
    }
  }

  lemma CountOne(event: Event, kind: Kind)
    ensures Count([event], kind) == if event.kind == kind then 1 else 0
  {
    assert [event][..0] == [];
  }

  /** Execution is completed before the undo is: where the undo stands in an accepted journal, the
      execution stands somewhere before it. */
  lemma ExecutedBeforeUndone(events: seq<Event>, j: nat)
    requires Reduced(events).Ok? && j < |events| && events[j].kind == UndoCompleted
    ensures exists i :: 0 <= i < j && events[i].kind == ExecutionCompleted
  {
    hide Reduced, Next, Balanced, Count;
    PrefixAccepted(events, j + 1);
    var prefix := events[..j + 1];
    BooksBalance(prefix);
    UndoneWasExecuted(prefix, Reduced(prefix).value);
    LastCounts(prefix);
    CountMeansOccurs(prefix, ExecutionCompleted);
    var i :| 0 <= i < |prefix| && prefix[i].kind == ExecutionCompleted;
    assert events[i].kind == ExecutionCompleted;
  }

  lemma UndoneWasExecuted(events: seq<Event>, state: State)
    requires Balanced(events, state)
    ensures Count(events, UndoCompleted) <= Count(events, ExecutionCompleted)
  {
  }

  lemma LastCounts(events: seq<Event>)
    requires events != []
    ensures Count(events, events[|events| - 1].kind) > 0
  {
  }

  lemma {:induction false} CountMeansOccurs(events: seq<Event>, kind: Kind)
    requires Count(events, kind) > 0
    ensures exists i :: 0 <= i < |events| && events[i].kind == kind
    decreases |events|
  {
    var last := |events| - 1;
    if events[last].kind != kind {
      CountMeansOccurs(events[..last], kind);
      var i :| 0 <= i < last && events[..last][i].kind == kind;
      assert events[i].kind == kind;
    }
  }

  /** A plan may need attention with the rename in effect or not: the state does not tell. */
  lemma AttentionIsAmbiguous() returns (doubtful: seq<Event>, undoing: seq<Event>)
    ensures Reduced(doubtful) == Reduced(undoing) == Ok(NeedsAttention)
    ensures Count(doubtful, ExecutionCompleted) == 0 && Count(undoing, ExecutionCompleted) == 1
    ensures Count(doubtful, UndoCompleted) == Count(undoing, UndoCompleted) == 0
  {
    hide Count, Reduced;
    var journal := Begin();
    journal := Extend(journal, ExecuteRequest);
    journal := Extend(journal, DirectIntent);
    doubtful := Extend(journal, ExecutionNeedsAttention);
    undoing := UndoIsDoubtful(journal);
  }

  lemma UndoIsDoubtful(intended: seq<Event>) returns (undoing: seq<Event>)
    requires Reduced(intended) == Ok(DirectRenameIntent) && |intended| == 3
    requires intended[2].sequence == 3
    ensures Reduced(undoing) == Ok(NeedsAttention)
    ensures Count(undoing, ExecutionCompleted) == Count(intended, ExecutionCompleted) + 1
    ensures Count(undoing, UndoCompleted) == Count(intended, UndoCompleted)
  {
    hide Count, Reduced;
    var journal := Extend(intended, ExecutionCompleted);
    journal := Extend(journal, UndoRequest);
    journal := Extend(journal, UndoIntent);
    undoing := Extend(journal, UndoNeedsAttention);
  }

  lemma Begin() returns (journal: seq<Event>)
    ensures Reduced(journal) == Ok(Previewed) && |journal| == 1 && journal[0].sequence == 1
    ensures Count(journal, ExecutionCompleted) == Count(journal, UndoCompleted) == 0
  {
    journal := [Event(1, PreviewCreated)];
  }

  lemma Extend(journal: seq<Event>, kind: Kind) returns (longer: seq<Event>)
    requires Reduced(journal).Ok? && Next(Reduced(journal).value, kind).Some?
    requires 0 < |journal| < 10 && journal[|journal| - 1].sequence == |journal|
    ensures Reduced(longer) == Ok(Next(Reduced(journal).value, kind).value)
    ensures |longer| == |journal| + 1 && longer[|journal|].sequence == |longer|
    ensures Count(longer, ExecutionCompleted)
         == Count(journal, ExecutionCompleted) + if kind == ExecutionCompleted then 1 else 0
    ensures Count(longer, UndoCompleted)
         == Count(journal, UndoCompleted) + if kind == UndoCompleted then 1 else 0
  {
    longer := journal + [Event(|journal| + 1, kind)];
    assert longer[..|journal|] == journal;
  }
}
