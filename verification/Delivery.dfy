/** A whole fan-out: the actor's loop over the session's workers
    (tonlib-multiclient/multi_client_actor.h), the workers' request tables and
    the promise they share, taken together over every interleaving.

    Sub-request `k` goes to worker `session[k]`. Between the moment the actor
    sends it and the moment the worker takes it up, it sits in the worker's
    mailbox. Workers also carry foreign traffic of any kind. */
module Delivery {
  import opened Results
  import Fan = PromiseSuccessAny
  import Wrap = ClientWrapper

  datatype Owner = Mine(sub: nat) | Foreign

  datatype Move<V> =
    | IssueNext
    | Work(worker: nat, event: Wrap.Event<Owner, V>)

  datatype System<V> = System(
    control: Fan.State<V>,
    issued: nat,
    mailbox: set<nat>,
    wrappers: seq<Wrap.State<Owner>>,
    trace: seq<Fan.Event<V>>)

  function Start<V>(workers: nat): System<V> {
    System(Fan.State(Fan.Pending, 0), 0, {}, seq(workers, i => Wrap.Initial()), [])
  }

  /** Responses and foreign requests happen freely; one of our sub-requests is
      taken up only by its own worker, and only from the mailbox. */
  predicate Enabled<V>(session: seq<nat>, s: System<V>, m: Move<V>) {
    match m
    case IssueNext => s.issued < |session|
    case Work(w, e) =>
      && w < |s.wrappers|
      && (e.TakesId() && e.promise.Mine? ==>
            e.promise.sub in s.mailbox && e.promise.sub < |session| && session[e.promise.sub] == w)
  }

  function EffectOf<V>(s: System<V>, m: Move<V>): Wrap.Effect<Owner, V> {
    if m.Work? && m.worker < |s.wrappers| then Wrap.Step(true, s.wrappers[m.worker], m.event).1 else Wrap.Nothing
  }

  function MailboxAfter<V>(mailbox: set<nat>, e: Wrap.Event<Owner, V>): set<nat> {
    if e.TakesId() && e.promise.Mine? then mailbox - {e.promise.sub} else mailbox
  }

  /** Settling one of our sub-promises is an answer to the control block. */
  function Absorb<V>(s: System<V>, effect: Wrap.Effect<Owner, V>): System<V> {
    if effect.Settle? && effect.promise.Mine? then
      var answer := Fan.Answer(effect.promise.sub, effect.result);
      s.(control := Fan.Step(s.control, answer), trace := s.trace + [answer])
    else s
  }

  function Next<V>(session: seq<nat>, s: System<V>, m: Move<V>): System<V>
    requires Enabled(session, s, m)
  {
    match m
    case IssueNext =>
      s.(control := Fan.Step(s.control, Fan.Issue), issued := s.issued + 1,
         mailbox := s.mailbox + {s.issued}, trace := s.trace + [Fan.Issue])
    case Work(w, e) =>
      var (wrapper, effect) := Wrap.Step(true, s.wrappers[w], e);
      Absorb(s.(wrappers := s.wrappers[w := wrapper], mailbox := MailboxAfter(s.mailbox, e)), effect)
  }

  /** A run is any sequence of moves; a move that is not enabled does nothing. */
  function After<V>(session: seq<nat>, workers: nat, moves: seq<Move<V>>): System<V> {
    if moves == [] then Start(workers)
    else
      var s := After(session, workers, moves[..|moves| - 1]);
      if Enabled(session, s, moves[|moves| - 1]) then Next(session, s, moves[|moves| - 1]) else s
  }

  // ----- Where a sub-request is -----

  ghost predicate InTable(session: seq<nat>, wrappers: seq<Wrap.State<Owner>>, sub: nat, id: nat) {
    && sub < |session| && session[sub] < |wrappers|
    && id in wrappers[session[sub]].tracking && wrappers[session[sub]].tracking[id] == Mine(sub)
  }

  ghost predicate InTables(session: seq<nat>, wrappers: seq<Wrap.State<Owner>>, sub: nat) {
    exists id :: InTable(session, wrappers, sub, id)
  }

  /** One worker's table: our entries are out, open and meant for this worker,
      and no sub-request is entered twice. */
  ghost predicate TableOk(session: seq<nat>, wrapper: Wrap.State<Owner>, w: nat, open: set<nat>) {
    && (forall id | id in wrapper.tracking :: id < wrapper.requestId)
    && (forall id | id in wrapper.tracking && wrapper.tracking[id].Mine? ::
          var sub := wrapper.tracking[id].sub;
          sub < |session| && session[sub] == w && sub in open)
    && (forall x, y | x in wrapper.tracking && y in wrapper.tracking && x != y && wrapper.tracking[x].Mine? ::
          wrapper.tracking[x] != wrapper.tracking[y])
  }

  /** Sub-requests that are issued, taken up, and not answered. */
  function Open<V>(s: System<V>): set<nat> {
    Fan.Below(s.issued) - s.mailbox - Fan.Answered(s.trace)
  }

  ghost predicate TablesOk<V>(session: seq<nat>, s: System<V>) {
    forall w | 0 <= w < |s.wrappers| :: TableOk(session, s.wrappers[w], w, Open(s))
  }

  ghost predicate Covered<V>(session: seq<nat>, s: System<V>, sub: nat) {
    sub in s.mailbox || sub in Fan.Answered(s.trace) || InTables(session, s.wrappers, sub)
  }

  ghost predicate Invariant<V(!new)>(session: seq<nat>, s: System<V>) {
    && s.issued == Fan.Issued(s.trace) <= |session|
    && s.control == Fan.Run(s.trace)
    && Fan.WellFormed(s.trace)
    && s.mailbox <= Fan.Below(s.issued) - Fan.Answered(s.trace)
    && TablesOk(session, s)
    && (forall sub | 0 <= sub < s.issued :: Covered(session, s, sub))
  }

  lemma {:induction false} TraceGrows<V(!new)>(trace: seq<Fan.Event<V>>, e: Fan.Event<V>)
    requires Fan.WellFormed(trace)
    requires e.Answer? ==> e.sub < Fan.Issued(trace) && e.sub !in Fan.Answered(trace)
    ensures Fan.WellFormed(trace + [e])
    ensures Fan.Run(trace + [e]) == Fan.Step(Fan.Run(trace), e)
    ensures Fan.Issued(trace + [e]) == Fan.Issued(trace) + if e.Issue? then 1 else 0
    ensures Fan.Answered(trace + [e]) == Fan.Answered(trace) + if e.Answer? then {e.sub} else {}
  {
    var t := trace + [e];
    assert t[..|trace|] == trace;
    forall k | 0 <= k < |t| && t[k].Answer?
      ensures t[k].sub < Fan.Issued(t[..k])
    {
      assert t[..k] == if k < |trace| then trace[..k] else trace;
    }
    forall j, k | 0 <= j < k < |t| && t[j].Answer? && t[k].Answer?
      ensures t[j].sub != t[k].sub
    {
      if k == |trace| {
        Fan.AnsweredMeansSomeAnswer(trace, e.sub);
        assert !Fan.AnsweredAt(trace, j, e.sub);
      }
    }
  }

  lemma {:induction false} IssueKeepsOpen<V(!new)>(session: seq<nat>, s: System<V>)
    requires Invariant(session, s) && s.issued < |session|
    ensures Open(Next(session, s, IssueNext)) == Open(s)
    ensures Next(session, s, IssueNext).mailbox
         <= Fan.Below(s.issued + 1) - Fan.Answered(Next(session, s, IssueNext).trace)
  {
    TraceGrows(s.trace, Fan.Issue);
    Fan.PendingIsIssuedMinusAnswered(s.trace);
    assert s.issued !in Fan.Answered(s.trace);
  }

  lemma {:induction false} IssueKeeps<V(!new)>(session: seq<nat>, s: System<V>)
    requires Invariant(session, s) && s.issued < |session|
    ensures Invariant(session, Next(session, s, IssueNext))
  {
    var n := Next(session, s, IssueNext);
    TraceGrows(s.trace, Fan.Issue);
    IssueKeepsOpen(session, s);
    assert TablesOk(session, n);
    forall sub: nat | sub < n.issued
      ensures Covered(session, n, sub)
    {
      if sub < s.issued {
        assert Covered(session, s, sub);
      }
    }
  }

  /** Our sub-request that event `e` takes into a table, if any. */
  function Taken<V>(e: Wrap.Event<Owner, V>): set<nat> {
    if e.TakesId() && e.promise.Mine? then {e.promise.sub} else {}
  }

  /** Our sub-request that an effect settles, if any. */
  function Given<V>(effect: Wrap.Effect<Owner, V>): set<nat> {
    if effect.Settle? && effect.promise.Mine? then {effect.promise.sub} else {}
  }

  /** What one event does to a worker's table, given what is open before it:
      it takes a sub-request in, lets one out, or leaves ours alone. */
  lemma {:induction false} TableStep<V(!new)>(
    session: seq<nat>, wrapper: Wrap.State<Owner>, w: nat, open: set<nat>, e: Wrap.Event<Owner, V>)
    requires TableOk(session, wrapper, w, open)
    requires e.TakesId() && e.promise.Mine? ==>
               e.promise.sub < |session| && session[e.promise.sub] == w && e.promise.sub !in open
    ensures var (next, effect) := Wrap.Step(true, wrapper, e);
            && TableOk(session, next, w, (open + Taken(e)) - Given(effect))
            && Given(effect) <= open + Taken(e)
            && (forall sub | sub in Given(effect) :: sub < |session| && session[sub] == w)
  {
  }

  lemma {:induction false} AnsweredAfterWork<V(!new)>(session: seq<nat>, s: System<V>, w: nat, e: Wrap.Event<Owner, V>)
    requires Enabled(session, s, Work(w, e)) && Fan.WellFormed(s.trace)
    requires forall sub | sub in Given(EffectOf(s, Work(w, e))) ::
               sub < Fan.Issued(s.trace) && sub !in Fan.Answered(s.trace)
    ensures var n := Next(session, s, Work(w, e));
            && Fan.Answered(n.trace) == Fan.Answered(s.trace) + Given(EffectOf(s, Work(w, e)))
            && n.mailbox == s.mailbox - Taken(e) && n.issued == s.issued
  {
    var effect := EffectOf(s, Work(w, e));
    if effect.Settle? && effect.promise.Mine? {
      assert effect.promise.sub in Given(effect);
      TraceGrows(s.trace, Fan.Answer(effect.promise.sub, effect.result));
    }
  }

  lemma {:induction false} OpenAfterWork<V(!new)>(session: seq<nat>, s: System<V>, w: nat, e: Wrap.Event<Owner, V>)
    requires Invariant(session, s) && Enabled(session, s, Work(w, e))
    requires forall sub | sub in Given(EffectOf(s, Work(w, e))) :: sub in Open(s) + Taken(e)
    ensures Open(Next(session, s, Work(w, e))) == (Open(s) + Taken(e)) - Given(EffectOf(s, Work(w, e)))
  {
    AnsweredAfterWork(session, s, w, e);
    OpenAlgebra(Fan.Below(s.issued), s.mailbox, Fan.Answered(s.trace), Taken(e), Given(EffectOf(s, Work(w, e))));
  }

  lemma {:induction false} OpenAlgebra(
    all: set<nat>, mailbox: set<nat>, answered: set<nat>, taken: set<nat>, given: set<nat>)
    requires taken <= mailbox <= all - answered
    ensures (all - (mailbox - taken)) - (answered + given) == ((all - mailbox - answered) + taken) - given
  {
  }

  lemma {:induction false} WorkKeepsTables<V(!new)>(session: seq<nat>, s: System<V>, w: nat, e: Wrap.Event<Owner, V>)
    requires Invariant(session, s) && Enabled(session, s, Work(w, e))
    ensures var effect := EffectOf(s, Work(w, e));
            && (effect.Settle? && effect.promise.Mine? ==>
                  effect.promise.sub < s.issued && effect.promise.sub !in Fan.Answered(s.trace)
                  && effect.promise.sub < |session| && session[effect.promise.sub] == w)
            && TablesOk(session, Next(session, s, Work(w, e)))
  {
    var (wrapper, effect) := Wrap.Step(true, s.wrappers[w], e);
    var n := Next(session, s, Work(w, e));
    assert TableOk(session, s.wrappers[w], w, Open(s));
    TableStep(session, s.wrappers[w], w, Open(s), e);
    OpenAfterWork(session, s, w, e);
    assert effect.Settle? && effect.promise.Mine? ==> effect.promise.sub in Given(effect);
    forall v: nat | v < |n.wrappers|
      ensures TableOk(session, n.wrappers[v], v, Open(n))
    {
      if v != w {
        OthersKeep(session, s.wrappers[v], v, Open(s), Open(n), w, Taken(e) + Given(effect));
      }
    }
  }

  lemma {:induction false} OthersKeep(
    session: seq<nat>, wrapper: Wrap.State<Owner>, v: nat, open: set<nat>, open': set<nat>, w: nat, touched: set<nat>)
    requires TableOk(session, wrapper, v, open) && v != w
    requires forall sub | sub in touched :: sub < |session| && session[sub] == w
    requires open - touched <= open'
    ensures TableOk(session, wrapper, v, open')
  {
  }

  /** An entry of ours stays in its table, or comes into it, unless it is settled. */
  lemma {:induction false} EntriesStay<V(!new)>(
    session: seq<nat>, wrappers: seq<Wrap.State<Owner>>, w: nat, e: Wrap.Event<Owner, V>, sub: nat)
    requires w < |wrappers|
    requires var effect := Wrap.Step(true, wrappers[w], e).1;
             !(effect.Settle? && effect.promise == Mine(sub))
    requires || (e.TakesId() && e.promise == Mine(sub) && sub < |session| && session[sub] == w)
             || (InTables(session, wrappers, sub)
                 && forall id | id in wrappers[w].tracking :: id < wrappers[w].requestId)
    ensures InTables(session, wrappers[w := Wrap.Step(true, wrappers[w], e).0], sub)
  {
    var next := wrappers[w := Wrap.Step(true, wrappers[w], e).0];
    if e.TakesId() && e.promise == Mine(sub) && sub < |session| && session[sub] == w {
      assert InTable(session, next, sub, wrappers[w].requestId);
    } else {
      var id :| InTable(session, wrappers, sub, id);
      assert InTable(session, next, sub, id);
    }
  }

  lemma {:induction false} WorkKeepsCover<V(!new)>(
    session: seq<nat>, s: System<V>, w: nat, e: Wrap.Event<Owner, V>, sub: nat)
    requires Enabled(session, s, Work(w, e)) && Covered(session, s, sub)
    requires forall id | id in s.wrappers[w].tracking :: id < s.wrappers[w].requestId
    requires var n := Next(session, s, Work(w, e));
             var effect := EffectOf(s, Work(w, e));
             Fan.Answered(n.trace) == Fan.Answered(s.trace) + Given(effect)
    ensures Covered(session, Next(session, s, Work(w, e)), sub)
  {
    var effect := EffectOf(s, Work(w, e));
    var n := Next(session, s, Work(w, e));
    assert n.wrappers == s.wrappers[w := Wrap.Step(true, s.wrappers[w], e).0];
    assert n.mailbox == MailboxAfter(s.mailbox, e);
    if !(effect.Settle? && effect.promise == Mine(sub)) && sub !in n.mailbox && sub !in Fan.Answered(s.trace) {
      EntriesStay(session, s.wrappers, w, e, sub);
    }
  }

  lemma {:induction false} WorkKeepsTrace<V(!new)>(session: seq<nat>, s: System<V>, w: nat, e: Wrap.Event<Owner, V>)
    requires Invariant(session, s) && Enabled(session, s, Work(w, e))
    ensures var n := Next(session, s, Work(w, e));
            && n.issued == Fan.Issued(n.trace) && n.control == Fan.Run(n.trace) && Fan.WellFormed(n.trace)
            && Fan.Answered(n.trace) == Fan.Answered(s.trace) + Given(EffectOf(s, Work(w, e)))
            && n.mailbox <= Fan.Below(n.issued) - Fan.Answered(n.trace)
  {
    var effect := EffectOf(s, Work(w, e));
    WorkKeepsTables(session, s, w, e);
    if effect.Settle? && effect.promise.Mine? {
      TraceGrows(s.trace, Fan.Answer(effect.promise.sub, effect.result));
      MailboxAndAnswered(session, s, w, e);
    }
  }

  lemma {:induction false} WorkKeeps<V(!new)>(session: seq<nat>, s: System<V>, w: nat, e: Wrap.Event<Owner, V>)
    requires Invariant(session, s) && Enabled(session, s, Work(w, e))
    ensures Invariant(session, Next(session, s, Work(w, e)))
  {
    var n := Next(session, s, Work(w, e));
    WorkKeepsTables(session, s, w, e);
    WorkKeepsTrace(session, s, w, e);
    assert TableOk(session, s.wrappers[w], w, Open(s));
    forall sub: nat | sub < n.issued
      ensures Covered(session, n, sub)
    {
      assert Covered(session, s, sub);
      WorkKeepsCover(session, s, w, e, sub);
    }
  }

  /** What a worker settles is no longer in the mailbox. */
  lemma {:induction false} MailboxAndAnswered<V(!new)>(session: seq<nat>, s: System<V>, w: nat, e: Wrap.Event<Owner, V>)
    requires Invariant(session, s) && Enabled(session, s, Work(w, e))
    ensures var effect := EffectOf(s, Work(w, e));
            effect.Settle? && effect.promise.Mine? ==> effect.promise.sub !in MailboxAfter(s.mailbox, e)
  {
    assert TableOk(session, s.wrappers[w], w, Open(s));
  }

  lemma {:induction false} InvariantAlways<V(!new)>(session: seq<nat>, workers: nat, moves: seq<Move<V>>)
    ensures Invariant(session, After(session, workers, moves))
  {
    if moves == [] {
    } else {
      var p, m := moves[..|moves| - 1], moves[|moves| - 1];
      var s := After(session, workers, p);
      InvariantAlways(session, workers, p);
      if Enabled(session, s, m) {
        match m
        case IssueNext => IssueKeeps(session, s);
        case Work(w, e) => WorkKeeps(session, s, w, e);
      }
    }
  }

  // ----- What the caller gets -----

  /** What worker `w` has been through. */
  function EventsOf<V>(session: seq<nat>, workers: nat, moves: seq<Move<V>>, w: nat): seq<Wrap.Event<Owner, V>> {
    if moves == [] then []
    else
      var p, m := moves[..|moves| - 1], moves[|moves| - 1];
      if m.Work? && m.worker == w && Enabled(session, After(session, workers, p), m) then
        EventsOf(session, workers, p, w) + [m.event]
      else EventsOf(session, workers, p, w)
  }

  /** Each worker by itself is a run of its table. */
  lemma {:induction false} WorkerIsARun<V(!new)>(session: seq<nat>, workers: nat, moves: seq<Move<V>>, w: nat)
    requires w < workers
    ensures |After(session, workers, moves).wrappers| == workers
    ensures After(session, workers, moves).wrappers[w] == Wrap.Run(true, EventsOf(session, workers, moves, w))
  {
    if moves != [] {
      var p, m := moves[..|moves| - 1], moves[|moves| - 1];
      WorkerIsARun(session, workers, p, w);
      var events := EventsOf(session, workers, p, w);
      if m.Work? && m.worker == w && Enabled(session, After(session, workers, p), m) {
        assert (events + [m.event])[..|events|] == events;
      }
    }
  }

  /** The last of a worker's events gives `result` to sub-request `sub`, which
      event `i` entered: it is the first response with the id it went out under.
      Or it is `sub` itself, whose text could not be read. */
  ghost predicate AnswersRequest<V(!new)>(events: seq<Wrap.Event<Owner, V>>, i: int, sub: nat, result: Result<V>) {
    var last := |events| - 1;
    && 0 <= i <= last && events[i].TakesId() && events[i].promise == Mine(sub)
    && if i == last then
         events[i].TrackJson? && !events[i].Tracks()
         && result == Err(Error(0, if events[i].verdict.DecodeFailed? then "Failed to decode json request from string"
                                   else "Failed to parse request"))
       else
         && Wrap.FirstResponse(events, i, last)
         && result == if events[last].OnResult? then Ok(events[last].value)
                      else Err(Error(0, events[last].error.message))
  }

  ghost predicate AnswersSomeRequest<V(!new)>(events: seq<Wrap.Event<Owner, V>>, sub: nat, result: Result<V>) {
    exists i :: AnswersRequest(events, i, sub, result)
  }

  lemma {:induction false} SettlingAnswersRequest<V(!new)>(
    events: seq<Wrap.Event<Owner, V>>, e: Wrap.Event<Owner, V>, sub: nat, result: Result<V>)
    requires Wrap.Step(true, Wrap.Run(true, events), e).1 == Wrap.Settle(Mine(sub), result)
    ensures AnswersSomeRequest(events + [e], sub, result)
  {
    var all := events + [e];
    assert all[..|events|] == events;
    var i := Wrap.SettledRequest(true, all, |events|);
    if all[|events|].IsResponse() {
      Wrap.ResponseRouting(true, all, |events|);
    }
    assert AnswersRequest(all, i, sub, result);
  }

  /** With callback ids below the tracked ones, the id of that response went out
      with sub-request `sub` and with nothing else: what is delivered was given
      in answer to this sub-request. */
  lemma {:induction false} AnswerIsToThisRequest<V(!new)>(
    events: seq<Wrap.Event<Owner, V>>, i: nat, sub: nat, result: Result<V>)
    requires AnswersRequest(events, i, sub, result) && i < |events| - 1
    requires Wrap.CallbackIdsAreBelow(events, 100)
    ensures events[|events| - 1].id == Wrap.NextId(events[..i])
    ensures forall j | 0 <= j < |events| ::
              Wrap.EffectAt(true, events, j) == Wrap.Sent(events[|events| - 1].id) <==> j == i
  {
    Wrap.RequestsGoOutUnderTheirId(true, events, i);
    forall j: nat | j < |events| && Wrap.EffectAt(true, events, j) == Wrap.Sent(events[|events| - 1].id)
      ensures j == i
    {
      Wrap.TrackedIdsGoOutOnce(true, events, i, j);
    }
  }

  /** Move `i` is worker `session[sub]` giving `result` for our sub-request
      `sub`, in the first response that bears its id. */
  ghost predicate AnsweredByMove<V(!new)>(
    session: seq<nat>, workers: nat, moves: seq<Move<V>>, i: int, sub: nat, result: Result<V>)
  {
    && 0 <= i < |moves| && sub < |session|
    && moves[i].Work? && moves[i].worker == session[sub]
    && Enabled(session, After(session, workers, moves[..i]), moves[i])
    && AnswersSomeRequest(EventsOf(session, workers, moves[..i + 1], session[sub]), sub, result)
    && EffectOf(After(session, workers, moves[..i]), moves[i]) == Wrap.Settle(Mine(sub), result)
  }

  ghost predicate Provided<V(!new)>(
    session: seq<nat>, workers: nat, moves: seq<Move<V>>, sub: nat, result: Result<V>)
  {
    exists i :: AnsweredByMove(session, workers, moves, i, sub, result)
  }

  lemma {:induction false} ProvidedGrows<V(!new)>(
    session: seq<nat>, workers: nat, moves: seq<Move<V>>, sub: nat, result: Result<V>)
    requires moves != [] && Provided(session, workers, moves[..|moves| - 1], sub, result)
    ensures Provided(session, workers, moves, sub, result)
  {
    var p := moves[..|moves| - 1];
    var i :| AnsweredByMove(session, workers, p, i, sub, result);
    assert p[..i] == moves[..i] && p[..i + 1] == moves[..i + 1];
    assert AnsweredByMove(session, workers, moves, i, sub, result);
  }

  lemma {:induction false} WorkerCount<V(!new)>(session: seq<nat>, workers: nat, moves: seq<Move<V>>)
    ensures |After(session, workers, moves).wrappers| == workers
  {
    if moves != [] {
      WorkerCount(session, workers, moves[..|moves| - 1]);
    }
  }

  lemma {:induction false} LastMoveAnswers<V(!new)>(
    session: seq<nat>, workers: nat, moves: seq<Move<V>>, sub: nat, result: Result<V>)
    requires moves != [] && sub < |session|
    requires var p, m := moves[..|moves| - 1], moves[|moves| - 1];
             && m.Work? && m.worker == session[sub] && Enabled(session, After(session, workers, p), m)
             && EffectOf(After(session, workers, p), m) == Wrap.Settle(Mine(sub), result)
    ensures Provided(session, workers, moves, sub, result)
  {
    var p, m := moves[..|moves| - 1], moves[|moves| - 1];
    WorkerCount(session, workers, p);
    WorkerIsARun(session, workers, p, m.worker);
    SettlingAnswersRequest(EventsOf(session, workers, p, m.worker), m.event, sub, result);
    assert moves[..|p| + 1] == moves;
    assert AnsweredByMove(session, workers, moves, |p|, sub, result);
  }

  /** Every answer the control block sees was given by the right worker. */
  lemma {:induction false} AnswersAreProvided<V(!new)>(
    session: seq<nat>, workers: nat, moves: seq<Move<V>>, j: nat)
    requires j < |After(session, workers, moves).trace| && After(session, workers, moves).trace[j].Answer?
    ensures var a := After(session, workers, moves).trace[j];
            Provided(session, workers, moves, a.sub, a.result)
  {
    if moves != [] {
      var p, m := moves[..|moves| - 1], moves[|moves| - 1];
      var s := After(session, workers, p);
      var a := After(session, workers, moves).trace[j];
      InvariantAlways(session, workers, p);
      if j < |s.trace| {
        AnswersAreProvided(session, workers, p, j);
        ProvidedGrows(session, workers, moves, a.sub, a.result);
      } else {
        WorkKeepsTables(session, s, m.worker, m.event);
        LastMoveAnswers(session, workers, moves, a.sub, a.result);
      }
    }
  }

  /** Nothing of this fan-out is left to do: every sub-request was sent, taken
      up and answered. */
  ghost predicate Complete<V>(session: seq<nat>, s: System<V>) {
    && s.issued == |session| && s.mailbox == {}
    && forall sub | 0 <= sub < |session| :: !InTables(session, s.wrappers, sub)
  }

  /** End-to-end delivery: for a session of at least one worker, once the
      fan-out is complete the caller has a result, and it is what worker
      `session[sub]` answered to sub-request `sub`, for some `sub`. */
  lemma {:induction false} CallerGetsAWorkersAnswer<V(!new)>(session: seq<nat>, workers: nat, moves: seq<Move<V>>)
    requires session != [] && Complete(session, After(session, workers, moves))
    ensures var promise := After(session, workers, moves).control.promise;
            promise.Settled? && exists sub :: Provided(session, workers, moves, sub, promise.result)
  {
    var s := After(session, workers, moves);
    InvariantAlways(session, workers, moves);
    Fan.PendingIsIssuedMinusAnswered(s.trace);
    forall sub: nat | sub < |session|
      ensures sub in Fan.Answered(s.trace)
    {
      assert Covered(session, s, sub) && !InTables(session, s.wrappers, sub);
    }
    assert Fan.Answered(s.trace) == Fan.Below(|session|);
    Fan.CompleteRunIsSettled(s.trace);
    Fan.OutcomeIsFirstDecision(s.trace);
    var k :| Fan.Decides(s.trace, k);
    var first := Fan.Earliest(s.trace, k);
    AnswersAreProvided(session, workers, moves, first);
  }

  /** ... and only that one: a result, once delivered, is never replaced, in
      any continuation of the run. */
  lemma {:induction false} ResultIsFinal<V(!new)>(session: seq<nat>, workers: nat, moves: seq<Move<V>>, n: nat)
    requires n <= |moves| && After(session, workers, moves[..n]).control.promise.Settled?
    ensures After(session, workers, moves).control.promise == After(session, workers, moves[..n]).control.promise
  {
    if n == |moves| {
      assert moves[..n] == moves;
    } else {
      var p := moves[..|moves| - 1];
      assert p[..n] == moves[..n];
      ResultIsFinal(session, workers, p, n);
    }
  }

  // ----- The loop itself -----

  /** The order of moves when `meanwhile[k]` takes place after message `k`. */
  function Schedule<V>(meanwhile: seq<seq<Move<V>>>): seq<Move<V>> {
    if meanwhile == [] then []
    else Schedule(meanwhile[..|meanwhile| - 1]) + [IssueNext] + meanwhile[|meanwhile| - 1]
  }

  lemma {:induction false} OneMoreMove<V>(session: seq<nat>, workers: nat, moves: seq<Move<V>>, m: Move<V>)
    ensures var s := After(session, workers, moves);
            After(session, workers, moves + [m]) == if Enabled(session, s, m) then Next(session, s, m) else s
  {
    assert (moves + [m])[..|moves|] == moves;
  }

  /** What the workers do between two rounds of the loop. */
  method Meanwhile<V(!new)>(
    session: seq<nat>, workers: nat, control: Fan.ControlBlock<V>, before: System<V>, batch: seq<Move<V>>,
    ghost moves: seq<Move<V>>)
    returns (s: System<V>)
    requires control.View() == before.control && before == After(session, workers, moves)
    requires forall j | 0 <= j < |batch| :: batch[j].Work?
    modifies control
    ensures control.View() == s.control && s == After(session, workers, moves + batch) && s.issued == before.issued
  {
    s := before;
    assert moves + batch[..0] == moves;
    for j := 0 to |batch|
      invariant control.View() == s.control && s.issued == before.issued
      invariant s == After(session, workers, moves + batch[..j])
    {
      OneMoreMove(session, workers, moves + batch[..j], batch[j]);
      assert moves + batch[..j] + [batch[j]] == moves + batch[..j + 1];
      if Enabled(session, s, batch[j]) {
        var effect := EffectOf(s, batch[j]);
        if effect.Settle? && effect.promise.Mine? {
          control.AnswerSub(effect.promise.sub, effect.result);
        }
        s := Next(session, s, batch[j]);
      }
    }
    assert batch[..|batch|] == batch;
  }

  /** The loop over the session's workers, with the moves of the workers
      between its rounds: a sub-promise and a message for every worker, in
      order, on one control block. What it does is a run of the system, so the
      results above hold of its control block and its messages. */
  method FanOut<V(!new)>(session: seq<nat>, workers: nat, meanwhile: seq<seq<Move<V>>>)
    returns (control: Fan.ControlBlock<V>, s: System<V>)
    requires |meanwhile| == |session|
    requires forall k, j | 0 <= k < |meanwhile| && 0 <= j < |meanwhile[k]| :: meanwhile[k][j].Work?
    ensures fresh(control) && control.View() == s.control
    ensures s == After(session, workers, Schedule(meanwhile)) && s.issued == |session|
  {
    control := new Fan.ControlBlock();
    s := Start(workers);
    for k := 0 to |session|
      invariant fresh(control) && control.View() == s.control && s.issued == k
      invariant s == After(session, workers, Schedule(meanwhile[..k]))
    {
      ghost var moves := Schedule(meanwhile[..k]);
      OneMoreMove(session, workers, moves, IssueNext);
      control.GetPromise();
      s := Next(session, s, IssueNext);
      s := Meanwhile(session, workers, control, s, meanwhile[k], moves + [IssueNext]);
      assert meanwhile[..k + 1][..k] == meanwhile[..k];
    }
    assert meanwhile[..|session|] == meanwhile;
  }
}
