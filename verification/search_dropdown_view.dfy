/**
 * The search widget as an event-driven state machine: text changes feed the
 * suppression filter and the debounce timer, an expired timer hands its value
 * to the length gate and then to `fetchResults`, and a click on a row records
 * the selection, raises the suppression flag and writes the row's label back
 * into the field.
 *
 * Each `fetchResults` runs to completion before the next event: the search for
 * a committed query happens at the moment it leaves the debounce.
 */
module SearchDropdownView {
  import opened Wrappers
  import opened Text
  import opened Records
  import opened QueryPipeline
  import DropdownAdapter
  import SearchRepository

  /** What the view reports to the outside: the loading indicator, the results
      passed to the success listener (and shown in the list), the throwable
      passed to the error listener, and the record passed to the selection
      listener. */
  datatype Notice<V, E> =
    | LoadingShown
    | ResultsShown(results: seq<Record<V>>)
    | ErrorReported(error: E)
    | ItemSelected(item: Record<V>)

  /** The view's settings and collaborators: `minChars`, the display field, the
      values' `toString()`, and the remote lookup. */
  datatype Config<!V, E> = Config(
    minChars: int,
    displayField: string,
    show: V -> string,
    fetch: string -> Result<seq<Record<V>>, E>)

  datatype Widget<V, E> = Widget(
    text: string,                        // the search field's content
    suppressNextSearch: bool,
    selectedItem: Option<Record<V>>,
    pending: Option<Stamped>,            // the debounce's latest value, not yet emitted
    repo: SearchRepository.Repository<V>,
    shown: seq<Record<V>>,               // the list last submitted to the adapter
    dispatched: seq<Stamped>,            // every query handed to `fetchResults`
    log: seq<Notice<V, E>>)

  /** A freshly created view for an API URL and a cache time-to-live. */
  function Initial<V, E>(apiUrl: string, ttlSeconds: int): Widget<V, E> {
    Widget("", false, None, None, SearchRepository.Repository(apiUrl, ttlSeconds, map[]), [], [], [])
  }

  predicate IsTerminal<V, E>(n: Notice<V, E>) {
    n.ResultsShown? || n.ErrorReported?
  }

  /** `fetchResults`: show loading, search, then either submit the results and
      call the success listener with exactly them, or call the error listener
      with the throwable. With listeners that do not throw, exactly one of the
      two happens. */
  function FetchResults<V, E>(cfg: Config<V, E>, w: Widget<V, E>, q: Stamped): (r: Widget<V, E>)
    ensures r.dispatched == w.dispatched + [q]
    ensures |r.log| == |w.log| + 2 && r.log[..|w.log|] == w.log
    ensures r.log[|w.log|] == LoadingShown && IsTerminal(r.log[|w.log| + 1])
    ensures var outcome := SearchRepository.Search(w.repo, q.text, q.at, cfg.fetch).outcome;
      && (outcome.Success? <==> r.log[|w.log| + 1].ResultsShown?)
      && (outcome.Success? ==> r.log[|w.log| + 1].results == outcome.value && r.shown == outcome.value)
      && (outcome.Failure? ==> r.log[|w.log| + 1].error == outcome.error && r.shown == w.shown)
    ensures r.text == w.text && r.suppressNextSearch == w.suppressNextSearch
    ensures r.selectedItem == w.selectedItem && r.pending == w.pending
    ensures r.repo == SearchRepository.Search(w.repo, q.text, q.at, cfg.fetch).repo
  {
    var step := SearchRepository.Search(w.repo, q.text, q.at, cfg.fetch);
    var w1 := w.(repo := step.repo, dispatched := w.dispatched + [q]);
    match step.outcome
    case Success(results) => w1.(shown := results, log := w.log + [LoadingShown, ResultsShown(results)])
    case Failure(e) => w1.(log := w.log + [LoadingShown, ErrorReported(e)])
  }

  /** A value leaving the debounce goes on to `fetchResults` only if long enough. */
  function Commit<V, E>(cfg: Config<V, E>, w: Widget<V, E>, q: Stamped): Widget<V, E> {
    if LongEnough(q, cfg.minChars) then FetchResults(cfg, w, q) else w
  }

  /** At time `now`, a pending value whose window has run out leaves the debounce. */
  function Expire<V, E>(cfg: Config<V, E>, w: Widget<V, E>, now: int): Widget<V, E> {
    match w.pending
    case Some(p) =>
      if now - p.at >= DebounceMillis then Commit(cfg, w.(pending := None), Emitted(p, DebounceMillis))
      else w
    case None => w
  }

  /** The field goes idle: a pending value leaves the debounce. */
  function Flush<V, E>(cfg: Config<V, E>, w: Widget<V, E>): Widget<V, E> {
    match w.pending
    case Some(p) => Commit(cfg, w.(pending := None), Emitted(p, DebounceMillis))
    case None => w
  }

  /** A text change: the field takes the new text; it reaches the debounce,
      replacing any pending value, only when the flag is down. */
  function OnTextChanged<V, E>(w: Widget<V, E>, at: int, text: string): (r: Widget<V, E>)
    ensures r.text == text
    ensures w.suppressNextSearch ==> r.pending == w.pending
    ensures !w.suppressNextSearch ==> r.pending == Some(Stamped(at, text))
    ensures r.suppressNextSearch == w.suppressNextSearch && r.selectedItem == w.selectedItem
    ensures r.repo == w.repo && r.shown == w.shown
    ensures r.dispatched == w.dispatched && r.log == w.log
  {
    w.(text := text, pending := if w.suppressNextSearch then w.pending else Some(Stamped(at, text)))
  }

  /** The click handler: raise the flag, record the selection, write the row's
      label into the field (a text change the raised flag filters out), and pass
      the clicked record to the selection listener. */
  function OnClick<V, E>(cfg: Config<V, E>, w: Widget<V, E>, at: int, item: Record<V>): (r: Widget<V, E>)
    ensures r.suppressNextSearch
    ensures r.selectedItem == Some(item)
    ensures r.text == DropdownAdapter.Label(item, cfg.displayField, cfg.show)
    ensures cfg.displayField !in item ==> r.text == ""
    ensures r.log == w.log + [ItemSelected(item)]
    ensures r.pending == w.pending && r.dispatched == w.dispatched
    ensures r.repo == w.repo && r.shown == w.shown
  {
    var w1 := w.(suppressNextSearch := true, selectedItem := Some(item));
    var w2 := OnTextChanged(w1, at, DropdownAdapter.Label(item, cfg.displayField, cfg.show));
    w2.(log := w2.log + [ItemSelected(item)])
  }

  /** The handler an event goes to. */
  function Handle<V, E>(cfg: Config<V, E>, w: Widget<V, E>, e: UserEvent<V>): Widget<V, E> {
    match e
    case TextChanged(t, s) => OnTextChanged(w, t, s)
    case ItemClicked(t, item) => OnClick(cfg, w, t, item)
  }

  /** One event: first the debounce lets out a value whose window ran out by
      the event's time, then the event is handled. */
  function Step<V, E>(cfg: Config<V, E>, w: Widget<V, E>, e: UserEvent<V>): (r: Widget<V, E>)
    ensures e.TextChanged? ==> r.text == e.text && r.selectedItem == w.selectedItem
    ensures e.ItemClicked? ==>
              && r.selectedItem == Some(e.item)
              && r.text == DropdownAdapter.Label(e.item, cfg.displayField, cfg.show)
    ensures r.repo.baseUrl == w.repo.baseUrl && r.repo.ttlSeconds == w.repo.ttlSeconds
    ensures |w.dispatched| <= |r.dispatched| <= |w.dispatched| + 1
    ensures r.dispatched[..|w.dispatched|] == w.dispatched
    ensures |w.log| <= |r.log| && r.log[..|w.log|] == w.log
  {
    Handle(cfg, Expire(cfg, w, e.at), e)
  }

  /** The view after a history of events, the field then left idle. */
  function Run<V, E>(cfg: Config<V, E>, w: Widget<V, E>, events: seq<UserEvent<V>>): (r: Widget<V, E>)
    ensures r.pending == None
    ensures r.repo.baseUrl == w.repo.baseUrl && r.repo.ttlSeconds == w.repo.ttlSeconds
    ensures |w.dispatched| <= |r.dispatched| <= |w.dispatched| + |events| + 1
    ensures r.dispatched[..|w.dispatched|] == w.dispatched
    ensures |w.log| <= |r.log| && r.log[..|w.log|] == w.log
    decreases |events|
  {
    if events == [] then Flush(cfg, w)
    else
      var w' := Step(cfg, w, events[0]);
      var r := Run(cfg, w', events[1..]);
      assert r.dispatched[..|w.dispatched|] == r.dispatched[..|w'.dispatched|][..|w.dispatched|];
      assert r.log[..|w.log|] == r.log[..|w'.log|][..|w.log|];
      r
  }

  /** Event times never go backwards. */
  ghost predicate Chronological<V>(events: seq<UserEvent<V>>) {
    forall i, j :: 0 <= i < j < |events| ==> events[i].at <= events[j].at
  }

  function PendingValues<V, E>(w: Widget<V, E>): seq<Stamped> {
    match w.pending
    case Some(p) => [p]
    case None => []
  }

  /** A value reaches the debounce no earlier than the event that carries it. */
  lemma {:induction false} PassedNotEarlier<V>(events: seq<UserEvent<V>>, suppressed: bool, t: int)
    requires forall i :: 0 <= i < |events| ==> t <= events[i].at
    ensures forall k :: 0 <= k < |PassSuppression(events, suppressed)| ==> t <= PassSuppression(events, suppressed)[k].at
    decreases |events|
  {
    if events != [] {
      match events[0]
      case TextChanged(_, _) => PassedNotEarlier(events[1..], suppressed, t);
      case ItemClicked(_, _) => PassedNotEarlier(events[1..], true, t);
    }
  }

  lemma DebounceCons(p: Stamped, xs: seq<Stamped>, window: int)
    ensures Debounce([p] + xs, window) ==
      if xs != [] && xs[0].at - p.at < window then Debounce(xs, window)
      else [Emitted(p, window)] + Debounce(xs, window)
  {
    assert ([p] + xs)[1..] == xs;
  }

  /** The committed queries of what is still to come, given the view's pending value and flag. */
  function Upcoming<V, E>(cfg: Config<V, E>, w: Widget<V, E>, events: seq<UserEvent<V>>): seq<Stamped> {
    Gate(Debounce(PendingValues(w) + PassSuppression(events, w.suppressNextSearch), DebounceMillis), cfg.minChars)
  }

  lemma ConcatAssociative<T>(a: seq<T>, b: seq<T>, c: seq<T>)
    ensures a + (b + c) == (a + b) + c
  {
  }

  lemma CommitDispatches<V, E>(cfg: Config<V, E>, w: Widget<V, E>, q: Stamped)
    ensures Commit(cfg, w, q).dispatched == w.dispatched + Gate([q], cfg.minChars)
    ensures Commit(cfg, w, q).pending == w.pending
    ensures Commit(cfg, w, q).suppressNextSearch == w.suppressNextSearch
  {
    assert [q][1..] == [];
  }

  /** A value whose window ran out before anything else passed leaves the
      debounce first, ahead of all that follows it. */
  lemma ExpiredLeadsDebounce(p: Stamped, passed: seq<Stamped>, minChars: int)
    requires forall k :: 0 <= k < |passed| ==> p.at + DebounceMillis <= passed[k].at
    ensures Gate(Debounce([p] + passed, DebounceMillis), minChars)
            == Gate([Emitted(p, DebounceMillis)], minChars) + Gate(Debounce(passed, DebounceMillis), minChars)
  {
    DebounceCons(p, passed, DebounceMillis);
    GateAppend([Emitted(p, DebounceMillis)], Debounce(passed, DebounceMillis), minChars);
  }

  /** Letting an expired value out of the debounce moves it from what is still
      to come into what was dispatched. */
  lemma ExpireKeepsUpcoming<V, E>(cfg: Config<V, E>, w: Widget<V, E>, events: seq<UserEvent<V>>)
    requires events != [] && Chronological(events)
    requires w.pending.Some? ==> w.pending.value.at <= events[0].at
    ensures var w1 := Expire(cfg, w, events[0].at);
      && w.dispatched + Upcoming(cfg, w, events) == w1.dispatched + Upcoming(cfg, w1, events)
      && w1.suppressNextSearch == w.suppressNextSearch
      && (w1.pending.Some? ==> w1.pending == w.pending && events[0].at - w1.pending.value.at < DebounceMillis)
  {
    var e := events[0];
    var passed := PassSuppression(events, w.suppressNextSearch);
    match w.pending
    case None =>
    case Some(p) =>
      if e.at - p.at >= DebounceMillis {
        var q := Emitted(p, DebounceMillis);
        var w0 := w.(pending := None);
        var w1 := Expire(cfg, w, e.at);
        assert w1 == Commit(cfg, w0, q);
        CommitDispatches(cfg, w0, q);
        assert forall i :: 0 <= i < |events| ==> e.at <= events[i].at;
        PassedNotEarlier(events, w.suppressNextSearch, e.at);
        ExpiredLeadsDebounce(p, passed, cfg.minChars);
        var later := Gate(Debounce(passed, DebounceMillis), cfg.minChars);
        assert PendingValues(w) + passed == [p] + passed;
        assert PendingValues(w1) + passed == passed;
        ConcatAssociative(w.dispatched, Gate([q], cfg.minChars), later);
      }
  }

  /** Handling an event whose time leaves no value expired keeps what is still to come. */
  lemma HandleKeepsUpcoming<V, E>(cfg: Config<V, E>, w: Widget<V, E>, e: UserEvent<V>, rest: seq<UserEvent<V>>)
    requires w.pending.Some? ==> e.at - w.pending.value.at < DebounceMillis
    ensures var w' := Handle(cfg, w, e);
      && w'.dispatched == w.dispatched
      && Upcoming(cfg, w, [e] + rest) == Upcoming(cfg, w', rest)
      && (w'.pending.Some? ==> w'.pending == w.pending || w'.pending == Some(Stamped(e.at, e.text)))
  {
    var s := w.suppressNextSearch;
    var w' := Handle(cfg, w, e);
    var passed := PassSuppression([e] + rest, s);
    assert ([e] + rest)[1..] == rest;
    var next := PendingValues(w') + PassSuppression(rest, w'.suppressNextSearch);
    match w.pending
    case None =>
      assert next == passed;
      assert PendingValues(w) + passed == passed;
    case Some(p) =>
      DebounceCons(p, passed, DebounceMillis);
      if e.TextChanged? && !s {
        assert passed == [Stamped(e.at, e.text)] + PassSuppression(rest, s);
        assert next == passed;
      } else {
        assert next == [p] + passed;
      }
  }

  /** One event moves no query from what is still to come into what was
      dispatched except those it lets out of the debounce. */
  lemma StepKeepsUpcoming<V, E>(cfg: Config<V, E>, w: Widget<V, E>, events: seq<UserEvent<V>>)
    requires events != [] && Chronological(events)
    requires w.pending.Some? ==> w.pending.value.at <= events[0].at
    ensures var w' := Step(cfg, w, events[0]);
      && (w'.pending.Some? ==> forall i :: 1 <= i < |events| ==> w'.pending.value.at <= events[i].at)
      && w.dispatched + Upcoming(cfg, w, events) == w'.dispatched + Upcoming(cfg, w', events[1..])
  {
    var e := events[0];
    var w1 := Expire(cfg, w, e.at);
    ExpireKeepsUpcoming(cfg, w, events);
    assert events == [e] + events[1..];
    HandleKeepsUpcoming(cfg, w1, e, events[1..]);
    var w' := Handle(cfg, w1, e);
    if w'.pending.Some? {
      var t := w'.pending.value.at;
      assert t <= e.at;
      forall i | 1 <= i < |events|
        ensures t <= events[i].at
      {
        assert e.at <= events[i].at;
      }
    }
  }

  /** The view hands to `fetchResults` exactly what is still to come. */
  lemma {:induction false} RunDispatchesUpcoming<V, E>(cfg: Config<V, E>, w: Widget<V, E>, events: seq<UserEvent<V>>)
    requires Chronological(events)
    requires w.pending.Some? ==> forall i :: 0 <= i < |events| ==> w.pending.value.at <= events[i].at
    ensures Run(cfg, w, events).dispatched == w.dispatched + Upcoming(cfg, w, events)
    decreases |events|
  {
    if events == [] {
      match w.pending
      case None =>
        assert Upcoming(cfg, w, events) == [];
      case Some(p) =>
        CommitDispatches(cfg, w.(pending := None), Emitted(p, DebounceMillis));
        assert PendingValues(w) + PassSuppression(events, w.suppressNextSearch) == [p];
    } else {
      StepKeepsUpcoming(cfg, w, events);
      RunDispatchesUpcoming(cfg, Step(cfg, w, events[0]), events[1..]);
    }
  }

  /** The event-driven view and the flow chain agree: for a history in time
      order, the queries handed to `fetchResults` are exactly the committed
      queries of the suppression filter, the 300 ms debounce and the length
      gate, in the same order and at the same times. */
  lemma RunDispatchesCommitted<V, E>(cfg: Config<V, E>, apiUrl: string, ttlSeconds: int,
                                     events: seq<UserEvent<V>>)
    requires Chronological(events)
    ensures Run(cfg, Initial(apiUrl, ttlSeconds), events).dispatched == Committed(events, cfg.minChars)
  {
    var w: Widget<V, E> := Initial(apiUrl, ttlSeconds);
    RunDispatchesUpcoming(cfg, w, events);
    assert PendingValues(w) + PassSuppression(events, false) == PassSuppression(events, false);
  }

  /** The notices about queries, without the selection notices. */
  function QueryNotices<V, E>(log: seq<Notice<V, E>>): seq<Notice<V, E>>
    decreases |log|
  {
    if log == [] then []
    else (if log[0].ItemSelected? then [] else [log[0]]) + QueryNotices(log[1..])
  }

  lemma {:induction false} QueryNoticesAppend<V, E>(a: seq<Notice<V, E>>, b: seq<Notice<V, E>>)
    ensures QueryNotices(a + b) == QueryNotices(a) + QueryNotices(b)
    decreases |a|
  {
    if a == [] {
      assert a + b == b;
    } else {
      assert (a + b)[1..] == a[1..] + b;
      QueryNoticesAppend(a[1..], b);
    }
  }

  /** Loading followed by exactly one outcome, again and again. */
  predicate Paired<V, E>(ns: seq<Notice<V, E>>)
    decreases |ns|
  {
    ns == [] || (|ns| >= 2 && ns[0] == LoadingShown && IsTerminal(ns[1]) && Paired(ns[2..]))
  }

  lemma {:induction false} PairedExtend<V, E>(ns: seq<Notice<V, E>>, outcome: Notice<V, E>)
    requires Paired(ns) && IsTerminal(outcome)
    ensures Paired(ns + [LoadingShown, outcome])
    decreases |ns|
  {
    if ns == [] {
      assert (ns + [LoadingShown, outcome])[2..] == [];
    } else {
      assert (ns + [LoadingShown, outcome])[2..] == ns[2..] + [LoadingShown, outcome];
      PairedExtend(ns[2..], outcome);
    }
  }

  /** Every query handed to `fetchResults` has been answered by exactly one
      outcome, success or error, right after its loading notice. */
  ghost predicate OneOutcomePerQuery<V, E>(w: Widget<V, E>) {
    Paired(QueryNotices(w.log)) && |QueryNotices(w.log)| == 2 * |w.dispatched|
  }

  lemma FetchResultsKeepsOneOutcome<V, E>(cfg: Config<V, E>, w: Widget<V, E>, q: Stamped)
    requires OneOutcomePerQuery(w)
    ensures OneOutcomePerQuery(FetchResults(cfg, w, q))
  {
    var r := FetchResults(cfg, w, q);
    var added := [LoadingShown, r.log[|w.log| + 1]];
    assert r.log == w.log + added;
    QueryNoticesAppend(w.log, added);
    assert added[1..] == [r.log[|w.log| + 1]] && added[1..][1..] == [];
    assert QueryNotices(added[1..][1..]) == [];
    assert QueryNotices(added[1..]) == added[1..];
    assert QueryNotices(added) == added;
    PairedExtend(QueryNotices(w.log), r.log[|w.log| + 1]);
  }

  lemma StepKeepsOneOutcome<V, E>(cfg: Config<V, E>, w: Widget<V, E>, e: UserEvent<V>)
    requires OneOutcomePerQuery(w)
    ensures OneOutcomePerQuery(Step(cfg, w, e))
    ensures OneOutcomePerQuery(Flush(cfg, w))
  {
    match w.pending {
      case None =>
      case Some(p) =>
        var q := Emitted(p, DebounceMillis);
        if LongEnough(q, cfg.minChars) {
          FetchResultsKeepsOneOutcome(cfg, w.(pending := None), q);
        }
    }
    var w1 := Expire(cfg, w, e.at);
    assert OneOutcomePerQuery(w1);
    match e
    case TextChanged(_, _) =>
    case ItemClicked(t, item) =>
      var r := OnClick(cfg, w1, t, item);
      QueryNoticesAppend(w1.log, [ItemSelected(item)]);
      assert QueryNotices(r.log) == QueryNotices(w1.log);
  }

  lemma {:induction false} RunKeepsOneOutcome<V, E>(cfg: Config<V, E>, w: Widget<V, E>, events: seq<UserEvent<V>>)
    requires OneOutcomePerQuery(w)
    ensures OneOutcomePerQuery(Run(cfg, w, events))
    decreases |events|
  {
    if events == [] {
      StepKeepsOneOutcome(cfg, w, TextChanged(0, ""));
    } else {
      StepKeepsOneOutcome(cfg, w, events[0]);
      RunKeepsOneOutcome(cfg, Step(cfg, w, events[0]), events[1..]);
    }
  }

  /** Whatever the history, each query handed to `fetchResults` ends in exactly
      one outcome, the success listener or the error listener, provided the
      listeners themselves do not throw. */
  lemma RunReportsOneOutcomePerQuery<V, E>(cfg: Config<V, E>, apiUrl: string, ttlSeconds: int,
                                           events: seq<UserEvent<V>>)
    ensures OneOutcomePerQuery(Run(cfg, Initial(apiUrl, ttlSeconds), events))
  {
    RunKeepsOneOutcome(cfg, Initial(apiUrl, ttlSeconds), events);
  }

  /** Nothing in the view clears `suppressNextSearch`, and a click sets it. */
  lemma StepNeverClearsSuppression<V, E>(cfg: Config<V, E>, w: Widget<V, E>, e: UserEvent<V>)
    ensures w.suppressNextSearch ==> Step(cfg, w, e).suppressNextSearch
    ensures e.ItemClicked? ==> Step(cfg, w, e).suppressNextSearch
    ensures !e.ItemClicked? ==> Step(cfg, w, e).suppressNextSearch == w.suppressNextSearch
  {
    match w.pending
    case None =>
    case Some(p) =>
      CommitDispatches(cfg, w.(pending := None), Emitted(p, DebounceMillis));
  }

  /** Once the flag is up, the only query that can still reach `fetchResults`
      is the one already waiting in the debounce; no later text change does. */
  lemma {:induction false} LatchedRun<V, E>(cfg: Config<V, E>, w: Widget<V, E>, events: seq<UserEvent<V>>)
    requires w.suppressNextSearch
    ensures Run(cfg, w, events).dispatched
            == w.dispatched + Gate(Delay(PendingValues(w), DebounceMillis), cfg.minChars)
    decreases |events|
  {
    var waiting := Gate(Delay(PendingValues(w), DebounceMillis), cfg.minChars);
    match w.pending {
      case None =>
        assert waiting == [];
      case Some(p) =>
        assert Delay(PendingValues(w), DebounceMillis) == [Emitted(p, DebounceMillis)];
        CommitDispatches(cfg, w.(pending := None), Emitted(p, DebounceMillis));
    }
    if events != [] {
      var w' := Step(cfg, w, events[0]);
      StepNeverClearsSuppression(cfg, w, events[0]);
      LatchedRun(cfg, w', events[1..]);
      if w'.pending.Some? {
        assert w'.pending == w.pending && w'.dispatched == w.dispatched;
      } else {
        assert w'.dispatched == w.dispatched + waiting;
        assert Gate(Delay(PendingValues(w'), DebounceMillis), cfg.minChars) == [];
      }
    }
  }

  /** For a history in time order, the searches the view makes are exactly those
      the text typed before the first click commits, whatever follows it. */
  lemma NothingAfterClickIsSearched<V, E>(cfg: Config<V, E>, apiUrl: string, ttlSeconds: int,
                                          before: seq<UserEvent<V>>, t: int, item: Record<V>,
                                          after: seq<UserEvent<V>>)
    requires Chronological(before + [ItemClicked(t, item)] + after)
    ensures Run(cfg, Initial(apiUrl, ttlSeconds), before + [ItemClicked(t, item)] + after).dispatched
            == Committed(before, cfg.minChars)
  {
    RunDispatchesCommitted(cfg, apiUrl, ttlSeconds, before + [ItemClicked(t, item)] + after);
    ClickLatchesSuppression(before, t, item, after, false);
  }

  /** A click does not cancel a query already waiting in the debounce: text
      typed before a click is still searched, 300 ms after it was typed, when
      it is long enough. */
  lemma PendingQuerySurvivesClick<V, E>(cfg: Config<V, E>, apiUrl: string, ttlSeconds: int,
                                        events: seq<UserEvent<V>>, t0: int, text: string,
                                        t1: int, item: Record<V>)
    requires t0 <= t1
    requires events == [TextChanged(t0, text), ItemClicked(t1, item)]
    ensures Run(cfg, Initial(apiUrl, ttlSeconds), events).dispatched
            == if Utf16Length(text) >= cfg.minChars then [Stamped(t0 + DebounceMillis, text)] else []
  {
    var before: seq<UserEvent<V>> := [TextChanged(t0, text)];
    assert events == before + [ItemClicked(t1, item)] + [];
    NothingAfterClickIsSearched(cfg, apiUrl, ttlSeconds, before, t1, item, []);
    CommittedSingle(before, t0, text, cfg.minChars);
  }

  /** "par" typed 100 ms before a click is still searched, at 300 ms. */
  lemma ClickExample<V, E>(cfg: Config<V, E>, apiUrl: string, ttlSeconds: int,
                           events: seq<UserEvent<V>>, text: string, item: Record<V>)
    requires cfg.minChars <= 3 && text == "par"
    requires events == [TextChanged(0, text), ItemClicked(100, item)]
    ensures Run(cfg, Initial(apiUrl, ttlSeconds), events).dispatched == [Stamped(300, text)]
  {
    PendingQuerySurvivesClick(cfg, apiUrl, ttlSeconds, events, 0, text, 100, item);
    assert Utf16Length(text) == 3;
  }

  /** The records clicked, in order. */
  function ClickedItems<V>(events: seq<UserEvent<V>>): seq<Record<V>>
    decreases |events|
  {
    if events == [] then []
    else match events[0]
      case ItemClicked(_, item) => [item] + ClickedItems(events[1..])
      case TextChanged(_, _) => ClickedItems(events[1..])
  }

  /** The records passed to the selection listener, in order. */
  function Selections<V, E>(log: seq<Notice<V, E>>): seq<Record<V>>
    decreases |log|
  {
    if log == [] then []
    else (if log[0].ItemSelected? then [log[0].item] else []) + Selections(log[1..])
  }

  lemma {:induction false} SelectionsAppend<V, E>(a: seq<Notice<V, E>>, b: seq<Notice<V, E>>)
    ensures Selections(a + b) == Selections(a) + Selections(b)
    decreases |a|
  {
    if a == [] {
      assert a + b == b;
    } else {
      var head: seq<Record<V>> := if a[0].ItemSelected? then [a[0].item] else [];
      assert (a + b)[0] == a[0];
      assert (a + b)[1..] == a[1..] + b;
      assert Selections(a + b) == head + Selections(a[1..] + b);
      SelectionsAppend(a[1..], b);
      ConcatAssociative(head, Selections(a[1..]), Selections(b));
    }
  }

  /** The record selected last, or `current` when nothing is clicked. */
  function LastClicked<V>(events: seq<UserEvent<V>>, current: Option<Record<V>>): Option<Record<V>>
    decreases |events|
  {
    if events == [] then current
    else match events[0]
      case ItemClicked(_, item) => LastClicked(events[1..], Some(item))
      case TextChanged(_, _) => LastClicked(events[1..], current)
  }

  lemma CommitSelection<V, E>(cfg: Config<V, E>, w: Widget<V, E>, q: Stamped)
    ensures Commit(cfg, w, q).selectedItem == w.selectedItem
    ensures Selections(Commit(cfg, w, q).log) == Selections(w.log)
  {
    if LongEnough(q, cfg.minChars) {
      var r := FetchResults(cfg, w, q);
      var added := [LoadingShown, r.log[|w.log| + 1]];
      assert r.log == w.log + added;
      SelectionsAppend(w.log, added);
      assert added[1..] == [r.log[|w.log| + 1]] && added[1..][1..] == [];
      assert Selections(added[1..][1..]) == [];
      assert Selections(added[1..]) == [];
      assert Selections(added) == [];
    }
  }

  lemma ExpireSelection<V, E>(cfg: Config<V, E>, w: Widget<V, E>, now: int)
    ensures Flush(cfg, w).selectedItem == w.selectedItem
    ensures Selections(Flush(cfg, w).log) == Selections(w.log)
    ensures Expire(cfg, w, now).selectedItem == w.selectedItem
    ensures Selections(Expire(cfg, w, now).log) == Selections(w.log)
  {
    if w.pending.Some? {
      CommitSelection(cfg, w.(pending := None), Emitted(w.pending.value, DebounceMillis));
    }
  }

  lemma StepSelection<V, E>(cfg: Config<V, E>, w: Widget<V, E>, e: UserEvent<V>)
    ensures Step(cfg, w, e).selectedItem == if e.ItemClicked? then Some(e.item) else w.selectedItem
    ensures Selections(Step(cfg, w, e).log) == Selections(w.log) + if e.ItemClicked? then [e.item] else []
  {
    var w1 := Expire(cfg, w, e.at);
    ExpireSelection(cfg, w, e.at);
    match e {
      case TextChanged(_, _) =>
        assert Selections(w.log) + [] == Selections(w.log);
      case ItemClicked(t, item) =>
        SelectionsAppend(w1.log, [ItemSelected(item)]);
    }
  }

  /** The clicks of a history are those of its first event, then those of the rest. */
  lemma ClickedUnfold<V>(events: seq<UserEvent<V>>, current: Option<Record<V>>)
    requires events != []
    ensures ClickedItems(events) == (if events[0].ItemClicked? then [events[0].item] else []) + ClickedItems(events[1..])
    ensures LastClicked(events, current)
            == LastClicked(events[1..], if events[0].ItemClicked? then Some(events[0].item) else current)
  {
  }

  /** `selectedItem` changes only on a click, to the clicked record, and the
      selection listener receives exactly the clicked records, in order. */
  lemma {:induction false} RunSelection<V, E>(cfg: Config<V, E>, w: Widget<V, E>, events: seq<UserEvent<V>>)
    ensures Run(cfg, w, events).selectedItem == LastClicked(events, w.selectedItem)
    ensures Selections(Run(cfg, w, events).log) == Selections(w.log) + ClickedItems(events)
    decreases |events|
  {
    if events == [] {
      ExpireSelection(cfg, w, 0);
    } else {
      var e := events[0];
      var w' := Step(cfg, w, e);
      var mine: seq<Record<V>> := if e.ItemClicked? then [e.item] else [];
      StepSelection(cfg, w, e);
      assert Selections(w'.log) == Selections(w.log) + mine;
      RunSelection(cfg, w', events[1..]);
      ClickedUnfold(events, w.selectedItem);
      ConcatAssociative(Selections(w.log), mine, ClickedItems(events[1..]));
    }
  }

  /** A query searched again within the time-to-live of a successful miss is
      answered from the cache: no request, and the success listener receives
      the same records as the first time. */
  lemma RepeatQueryServedFromCache<V, E>(cfg: Config<V, E>, w: Widget<V, E>, q1: Stamped, q2: Stamped)
    requires !SearchRepository.IsHit(w.repo, q1.text, q1.at)
    requires cfg.fetch(SearchRepository.BuildUrl(w.repo.baseUrl, q1.text)).Success?
    requires q2.text == q1.text && q2.at - q1.at <= w.repo.ttlSeconds * 1000
    ensures var w1 := FetchResults(cfg, w, q1);
            var w2 := FetchResults(cfg, w1, q2);
      && SearchRepository.Search(w1.repo, q2.text, q2.at, cfg.fetch).request == None
      && w1.log[|w.log| + 1] == ResultsShown(cfg.fetch(SearchRepository.BuildUrl(w.repo.baseUrl, q1.text)).value)
      && w2.log[|w1.log| + 1] == w1.log[|w.log| + 1]
      && w2.shown == w1.shown
  {
    SearchRepository.RepeatSearchWithinTtl(w.repo, q1.text, q1.at, q2.at, cfg.fetch);
  }
}
