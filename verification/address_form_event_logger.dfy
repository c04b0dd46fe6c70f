/**
  The address-form event logger of autofill: a small state machine whose
  handlers record the user's sync state and append form events to a
  trace. A fill logs a "filled" event for every fill and, on the first
  fill only, a "filled once" event of the first fill's kind. Sync states
  are a type parameter; the metrics back ends the events go to are the
  trace.
*/
module AddressFormEventLogger {
  import opened Wrappers

  /** Where the filled profile came from. */
  datatype RecordType = LocalProfile | ServerProfile

  /** The form events the address logger emits. */
  datatype FormEvent =
    | LocalSuggestionFilled
    | ServerSuggestionFilled
    | LocalSuggestionFilledOnce
    | ServerSuggestionFilledOnce
    | DidSeeFillableDynamicForm
    | DidDynamicRefill
    | DynamicChangeAfterRefill

  datatype Logger<S> = Logger(
    syncState: S,
    hasLoggedSuggestionFilled: bool,
    loggedSuggestionFilledWasServerData: bool,
    events: seq<FormEvent>)

  /** A fresh logger: nothing logged yet. */
  function Initial<S>(syncState: S): (l: Logger<S>)
    ensures !l.hasLoggedSuggestionFilled && l.events == []
  {
    Logger(syncState, false, false, [])
  }

  function FilledEvent(t: RecordType): FormEvent
  {
    if t == ServerProfile then ServerSuggestionFilled else LocalSuggestionFilled
  }

  function FilledOnceEvent(t: RecordType): FormEvent
  {
    if t == ServerProfile then ServerSuggestionFilledOnce else LocalSuggestionFilledOnce
  }

  predicate IsOnceEvent(e: FormEvent)
  {
    e == LocalSuggestionFilledOnce || e == ServerSuggestionFilledOnce
  }

  // ---------------------------------------------------------------------
  // The handlers

  /**
    A suggestion was filled: the sync state is recorded and the fill is
    logged by kind; on the first fill, its kind is remembered and the
    matching "filled once" event follows.
  */
  function OnDidFillSuggestion<S>(l: Logger<S>, recordType: RecordType, syncState: S): (r: Logger<S>)
    ensures r.syncState == syncState
    ensures r.hasLoggedSuggestionFilled
    ensures |l.events| < |r.events| && r.events[..|l.events|] == l.events
    ensures l.hasLoggedSuggestionFilled ==>
      && r.events == l.events + [FilledEvent(recordType)]
      && r.loggedSuggestionFilledWasServerData == l.loggedSuggestionFilledWasServerData
    ensures !l.hasLoggedSuggestionFilled ==>
      && r.events == l.events + [FilledEvent(recordType), FilledOnceEvent(recordType)]
      && (r.loggedSuggestionFilledWasServerData <==> recordType == ServerProfile)
  {
    var filled := l.(syncState := syncState, events := l.events + [FilledEvent(recordType)]);
    if !filled.hasLoggedSuggestionFilled then
      filled.(hasLoggedSuggestionFilled := true,
              loggedSuggestionFilledWasServerData := recordType == ServerProfile,
              events := filled.events + [FilledOnceEvent(recordType)])
    else
      filled
  }

  /** A handler that records the sync state and logs one event, and nothing else. */
  function LogWithSyncState<S>(l: Logger<S>, syncState: S, e: FormEvent): (r: Logger<S>)
    ensures r.syncState == syncState && r.events == l.events + [e]
    ensures r.hasLoggedSuggestionFilled == l.hasLoggedSuggestionFilled
    ensures r.loggedSuggestionFilledWasServerData == l.loggedSuggestionFilledWasServerData
  {
    l.(syncState := syncState, events := l.events + [e])
  }

  function OnDidSeeFillableDynamicForm<S>(l: Logger<S>, syncState: S): (r: Logger<S>)
    ensures r.syncState == syncState && r.events == l.events + [DidSeeFillableDynamicForm]
    ensures r.hasLoggedSuggestionFilled == l.hasLoggedSuggestionFilled
    ensures r.loggedSuggestionFilledWasServerData == l.loggedSuggestionFilledWasServerData
  {
    LogWithSyncState(l, syncState, DidSeeFillableDynamicForm)
  }

  function OnDidRefill<S>(l: Logger<S>, syncState: S): (r: Logger<S>)
    ensures r.syncState == syncState && r.events == l.events + [DidDynamicRefill]
    ensures r.hasLoggedSuggestionFilled == l.hasLoggedSuggestionFilled
    ensures r.loggedSuggestionFilledWasServerData == l.loggedSuggestionFilledWasServerData
  {
    LogWithSyncState(l, syncState, DidDynamicRefill)
  }

  function OnSubsequentRefillAttempt<S>(l: Logger<S>, syncState: S): (r: Logger<S>)
    ensures r.syncState == syncState && r.events == l.events + [DynamicChangeAfterRefill]
    ensures r.hasLoggedSuggestionFilled == l.hasLoggedSuggestionFilled
    ensures r.loggedSuggestionFilledWasServerData == l.loggedSuggestionFilledWasServerData
  {
    LogWithSyncState(l, syncState, DynamicChangeAfterRefill)
  }

  // ---------------------------------------------------------------------
  // Runs of calls

  /** A call of one of the handlers, with its arguments. */
  datatype Call<S> =
    | FillSuggestion(recordType: RecordType, syncState: S)
    | SeeFillableDynamicForm(syncState: S)
    | Refill(syncState: S)
    | SubsequentRefillAttempt(syncState: S)

  function Step<S>(l: Logger<S>, c: Call<S>): Logger<S>
  {
    match c
    case FillSuggestion(t, s) => OnDidFillSuggestion(l, t, s)
    case SeeFillableDynamicForm(s) => OnDidSeeFillableDynamicForm(l, s)
    case Refill(s) => OnDidRefill(l, s)
    case SubsequentRefillAttempt(s) => OnSubsequentRefillAttempt(l, s)
  }

  /** The logger after the calls, made in order. */
  function Run<S>(l: Logger<S>, calls: seq<Call<S>>): Logger<S>
  {
    if |calls| == 0 then l else Step(Run(l, calls[..|calls| - 1]), calls[|calls| - 1])
  }

  /** The event every call logs, whether or not it is the first fill. */
  function MainEvent<S>(c: Call<S>): FormEvent
  {
    match c
    case FillSuggestion(t, _) => FilledEvent(t)
    case SeeFillableDynamicForm(_) => DidSeeFillableDynamicForm
    case Refill(_) => DidDynamicRefill
    case SubsequentRefillAttempt(_) => DynamicChangeAfterRefill
  }

  /** The kind of the first fill among the calls, if any. */
  function FirstFill<S>(calls: seq<Call<S>>): Option<RecordType>
  {
    if |calls| == 0 then None
    else
      var earlier := FirstFill(calls[..|calls| - 1]);
      if earlier.Some? then earlier
      else if calls[|calls| - 1].FillSuggestion? then Some(calls[|calls| - 1].recordType)
      else None
  }

  /** How many calls log `e` as their main event. */
  function CountMain<S>(calls: seq<Call<S>>, e: FormEvent): nat
  {
    if |calls| == 0 then 0
    else CountMain(calls[..|calls| - 1], e) + (if MainEvent(calls[|calls| - 1]) == e then 1 else 0)
  }

  /** How often `e` occurs in a trace. */
  function Occurrences(events: seq<FormEvent>, e: FormEvent): nat
  {
    if |events| == 0 then 0
    else Occurrences(events[..|events| - 1], e) + (if events[|events| - 1] == e then 1 else 0)
  }

  lemma {:induction false} OccurrencesAppend(a: seq<FormEvent>, b: seq<FormEvent>, e: FormEvent)
    ensures Occurrences(a + b, e) == Occurrences(a, e) + Occurrences(b, e)
    decreases |b|
  {
    if |b| == 0 {
      assert a + b == a;
    } else {
      assert (a + b)[..|a + b| - 1] == a + b[..|b| - 1];
      assert (a + b)[|a + b| - 1] == b[|b| - 1];
      OccurrencesAppend(a, b[..|b| - 1], e);
    }
  }

  /** The one or two events a call appends to the trace. */
  lemma StepEvents<S>(l: Logger<S>, c: Call<S>)
    ensures Step(l, c).events ==
      l.events + [MainEvent(c)] +
      (if c.FillSuggestion? && !l.hasLoggedSuggestionFilled then [FilledOnceEvent(c.recordType)] else [])
    ensures Step(l, c).syncState == c.syncState
  {
  }

  /** How often a call's events add to the count of `e`. */
  lemma StepOccurrences<S>(l: Logger<S>, c: Call<S>, e: FormEvent)
    ensures Occurrences(Step(l, c).events, e) ==
      Occurrences(l.events, e) + (if MainEvent(c) == e then 1 else 0) +
      (if c.FillSuggestion? && !l.hasLoggedSuggestionFilled && e == FilledOnceEvent(c.recordType) then 1 else 0)
  {
    StepEvents(l, c);
    var added := [MainEvent(c)] +
      (if c.FillSuggestion? && !l.hasLoggedSuggestionFilled then [FilledOnceEvent(c.recordType)] else []);
    assert Step(l, c).events == l.events + added;
    OccurrencesAppend(l.events, added, e);
    if |added| == 2 {
      assert added == [added[0]] + [added[1]];
      OccurrencesAppend([added[0]], [added[1]], e);
    } else {
      assert Occurrences(added, e) == Occurrences([], e) + (if MainEvent(c) == e then 1 else 0);
    }
  }

  /** How many times `e` occurs after the calls, counted from the calls alone. */
  function ExpectedOccurrences<S>(calls: seq<Call<S>>, e: FormEvent): nat
  {
    CountMain(calls, e) + (if FirstFill(calls).Some? && e == FilledOnceEvent(FirstFill(calls).value) then 1 else 0)
  }

  /**
    The trace of a fresh logger after any calls: every call's main event
    once per call, and one "filled once" event of the first fill's kind
    if there was a fill, so at most one "filled once" event in all. The
    logger remembers whether there was a fill and whether the first came
    from the server, and holds the sync state of the last call.
  */
  lemma {:induction false} RunTrace<S>(s0: S, calls: seq<Call<S>>)
    ensures var r := Run(Initial(s0), calls);
      && (r.hasLoggedSuggestionFilled <==> FirstFill(calls).Some?)
      && (FirstFill(calls).Some? ==> (r.loggedSuggestionFilledWasServerData <==> FirstFill(calls) == Some(ServerProfile)))
      && (forall e :: Occurrences(r.events, e) == ExpectedOccurrences(calls, e))
      && r.syncState == (if |calls| == 0 then s0 else calls[|calls| - 1].syncState)
  {
    if |calls| > 0 {
      var before := Run(Initial(s0), calls[..|calls| - 1]);
      var c := calls[|calls| - 1];
      RunTrace(s0, calls[..|calls| - 1]);
      StepEvents(before, c);
      forall e
        ensures Occurrences(Run(Initial(s0), calls).events, e) == ExpectedOccurrences(calls, e)
      {
        StepOccurrences(before, c, e);
      }
    }
  }

  /** There is at most one "filled once" event, and when there is one it has the first fill's kind. */
  lemma AtMostOneFilledOnce<S>(s0: S, calls: seq<Call<S>>)
    ensures var events := Run(Initial(s0), calls).events;
      && Occurrences(events, LocalSuggestionFilledOnce) + Occurrences(events, ServerSuggestionFilledOnce) ==
         (if FirstFill(calls).Some? then 1 else 0)
      && (FirstFill(calls) == Some(ServerProfile) ==> Occurrences(events, ServerSuggestionFilledOnce) == 1)
      && (FirstFill(calls) == Some(LocalProfile) ==> Occurrences(events, LocalSuggestionFilledOnce) == 1)
  {
    RunTrace(s0, calls);
    NoCallLogsOnce(calls, LocalSuggestionFilledOnce);
    NoCallLogsOnce(calls, ServerSuggestionFilledOnce);
  }

  /** No call has a "filled once" event as its main event. */
  lemma {:induction false} NoCallLogsOnce<S>(calls: seq<Call<S>>, e: FormEvent)
    requires IsOnceEvent(e)
    ensures CountMain(calls, e) == 0
  {
    if |calls| > 0 {
      NoCallLogsOnce(calls[..|calls| - 1], e);
    }
  }

  /**
    Once a fill has been logged it stays logged, and the kind remembered
    for the first fill never changes.
  */
  lemma FirstFillIsKept<S>(l: Logger<S>, calls: seq<Call<S>>)
    requires l.hasLoggedSuggestionFilled
    ensures Run(l, calls).hasLoggedSuggestionFilled
    ensures Run(l, calls).loggedSuggestionFilledWasServerData == l.loggedSuggestionFilledWasServerData
    ensures |l.events| <= |Run(l, calls).events| && Run(l, calls).events[..|l.events|] == l.events
  {
    if |calls| > 0 {
      var before := Run(l, calls[..|calls| - 1]);
      FirstFillIsKept(l, calls[..|calls| - 1]);
      StepEvents(before, calls[|calls| - 1]);
      assert Run(l, calls).events[..|before.events|] == before.events;
    }
  }
}
