/** One worker's table of outstanding requests
    (tonlib-multiclient/client_wrapper.h and client_wrapper.cpp).

    `P` names the promises handed to the worker and `V` the answers. The
    tonlib client behind the worker is the environment: it may produce a
    response with any id at any time. */
module ClientWrapper {
  import opened Results

  /** How far the text of a JSON request got. */
  datatype Verdict = Parsed | DecodeFailed | ParseFailed

  datatype Event<P, V> =
    | Track(promise: P)
    | TrackJson(promise: P, verdict: Verdict)
    | CallbackRequest(id: nat)
    | OnResult(id: nat, value: V)
    | OnError(id: nat, error: Error)
  {
    predicate TakesId() { Track? || TrackJson? }

    /** Enters its promise into the table. */
    predicate Tracks() { Track? || (TrackJson? && verdict.Parsed?) }

    predicate IsResponse() { OnResult? || OnError? }

    predicate RespondsTo(x: nat) { IsResponse() && id == x }

    /** What a tracked promise receives: of an error only the message survives. */
    function Outcome(): Result<V>
      requires IsResponse()
    {
      if OnResult? then Ok(value) else Err(Error(0, error.message))
    }

    /** What the callback object receives. */
    function Report(): Result<V>
      requires IsResponse()
    {
      if OnResult? then Ok(value) else Err(error)
    }
  }

  datatype Effect<P, V> =
    | Sent(id: nat)
    | Settle(promise: P, result: Result<V>)
    | Callback(id: nat, report: Result<V>)
    | Nothing

  datatype State<P> = State(tracking: map<nat, P>, requestId: nat)

  const FIRST_ID: nat := 100
  const DECODE_ERROR := Error(0, "Failed to decode json request from string")
  const PARSE_ERROR := Error(0, "Failed to parse request")

  function Initial<P>(): State<P> { State(map[], FIRST_ID) }

  function Step<P, V>(hasCallback: bool, s: State<P>, e: Event<P, V>): (State<P>, Effect<P, V>) {
    match e
    case Track(p) => (State(s.tracking[s.requestId := p], s.requestId + 1), Sent(s.requestId))
    case TrackJson(p, DecodeFailed) => (s.(requestId := s.requestId + 1), Settle(p, Err(DECODE_ERROR)))
    case TrackJson(p, ParseFailed) => (s.(requestId := s.requestId + 1), Settle(p, Err(PARSE_ERROR)))
    case TrackJson(p, Parsed) => (State(s.tracking[s.requestId := p], s.requestId + 1), Sent(s.requestId))
    case CallbackRequest(id) => (s, Sent(id))
    case _ =>
      if e.id in s.tracking then (s.(tracking := s.tracking - {e.id}), Settle(s.tracking[e.id], e.Outcome()))
      else (s, if hasCallback then Callback(e.id, e.Report()) else Nothing)
  }

  function Run<P, V>(hasCallback: bool, trace: seq<Event<P, V>>): State<P> {
    if trace == [] then Initial()
    else Step(hasCallback, Run(hasCallback, trace[..|trace| - 1]), trace[|trace| - 1]).0
  }

  /** What event `j` of a run does to the outside. */
  function EffectAt<P, V>(hasCallback: bool, trace: seq<Event<P, V>>, j: nat): Effect<P, V>
    requires j < |trace|
  {
    Step(hasCallback, Run(hasCallback, trace[..j]), trace[j]).1
  }

  /** The actor; every method is one step, and its effect is appended to `effects`. */
  class Wrapper<P, V> {
    const hasCallback: bool
    var tracking: map<nat, P>
    var requestId: nat
    var effects: seq<Effect<P, V>>

    ghost function View(): State<P>
      reads this
    {
      State(tracking, requestId)
    }

    /** The fields after event `e`, from the fields `s` and `log` before it. */
    ghost predicate After(s: State<P>, log: seq<Effect<P, V>>, e: Event<P, V>)
      reads this
    {
      var (next, effect) := Step(hasCallback, s, e);
      View() == next && effects == log + [effect]
    }

    constructor (hasCallback: bool)
      ensures View() == Initial() && effects == [] && this.hasCallback == hasCallback
    {
      this.hasCallback := hasCallback;
      tracking, requestId, effects := map[], FIRST_ID, [];
    }

    method SendRequestFunction(promise: P)
      modifies this
      ensures After(old(View()), old(effects), Track(promise))
    {
      var id := requestId;
      requestId := requestId + 1;
      tracking := tracking[id := promise];
      effects := effects + [Sent(id)];
    }

    method SendRequestJson(promise: P, verdict: Verdict)
      modifies this
      ensures After(old(View()), old(effects), TrackJson(promise, verdict))
    {
      var id := requestId;
      requestId := requestId + 1;
      if verdict.DecodeFailed? {
        effects := effects + [Settle(promise, Err(DECODE_ERROR))];
        return;
      }
      if verdict.ParseFailed? {
        effects := effects + [Settle(promise, Err(PARSE_ERROR))];
        return;
      }
      tracking := tracking[id := promise];
      effects := effects + [Sent(id)];
    }

    method SendCallbackRequest(id: nat)
      modifies this
      ensures After(old(View()), old(effects), CallbackRequest(id))
    {
      effects := effects + [Sent(id)];
    }

    method OnCbResult(id: nat, value: V)
      modifies this
      ensures After(old(View()), old(effects), OnResult(id, value))
    {
      if id in tracking {
        var promise := tracking[id];
        tracking := tracking - {id};
        effects := effects + [Settle(promise, Ok(value))];
        return;
      }
      effects := effects + [if hasCallback then Callback(id, Ok(value)) else Nothing];
    }

    method OnCbError(id: nat, error: Error)
      modifies this
      ensures After(old(View()), old(effects), OnError(id, error))
    {
      if id in tracking {
        var promise := tracking[id];
        tracking := tracking - {id};
        effects := effects + [Settle(promise, Err(Error(0, error.message)))];
        return;
      }
      effects := effects + [if hasCallback then Callback(id, Err(error)) else Nothing];
    }
  }

  // ----- Ids and responses, told without the table -----

  function NextId<P, V>(trace: seq<Event<P, V>>): nat {
    if trace == [] then FIRST_ID
    else NextId(trace[..|trace| - 1]) + if trace[|trace| - 1].TakesId() then 1 else 0
  }

  /** Event `i` entered a promise under `id`, and no response with that id has followed. */
  ghost predicate Awaiting<P(!new), V(!new)>(trace: seq<Event<P, V>>, i: int, id: nat) {
    && 0 <= i < |trace| && trace[i].Tracks() && NextId(trace[..i]) == id
    && forall j | i < j < |trace| :: !trace[j].RespondsTo(id)
  }

  /** Event `j` is the first response after event `i` that bears the id of `i`. */
  ghost predicate FirstResponse<P(!new), V(!new)>(trace: seq<Event<P, V>>, i: int, j: int) {
    && 0 <= i < j < |trace| && trace[i].Tracks() && trace[j].RespondsTo(NextId(trace[..i]))
    && forall k | i < k < j :: !trace[k].RespondsTo(NextId(trace[..i]))
  }

  lemma {:induction false} NextIdMonotone<P, V>(trace: seq<Event<P, V>>, n: nat)
    requires n <= |trace|
    ensures FIRST_ID <= NextId(trace[..n]) <= NextId(trace)
    ensures n < |trace| && trace[n].TakesId() ==> NextId(trace[..n]) < NextId(trace)
  {
    if n == |trace| {
      assert trace[..n] == trace;
      if n > 0 { NextIdMonotone(trace[..n - 1], n - 1); }
    } else {
      var p := trace[..|trace| - 1];
      NextIdMonotone(p, n);
      assert p[..n] == trace[..n];
    }
  }

  /** No id is given out twice. */
  lemma {:induction false} IdsAreNeverReused<P, V>(trace: seq<Event<P, V>>, i: nat, j: nat)
    requires i < j < |trace| && trace[i].TakesId() && trace[j].TakesId()
    ensures NextId(trace[..i]) < NextId(trace[..j])
  {
    NextIdMonotone(trace[..j], i);
    assert trace[..j][..i] == trace[..i];
  }

  lemma {:induction false} AwaitingGrows<P(!new), V(!new)>(trace: seq<Event<P, V>>, i: int, id: nat)
    requires trace != []
    ensures var n := |trace| - 1;
            Awaiting(trace, i, id) <==>
              if i == n then trace[n].Tracks() && NextId(trace[..n]) == id
              else Awaiting(trace[..n], i, id) && !trace[n].RespondsTo(id)
  {
    var n := |trace| - 1;
    if 0 <= i < n {
      assert trace[..n][..i] == trace[..i];
    }
  }

  lemma {:induction false} NextIdIsRequestId<P, V>(hasCallback: bool, trace: seq<Event<P, V>>)
    ensures Run(hasCallback, trace).requestId == NextId(trace)
  {
    if trace != [] {
      NextIdIsRequestId(hasCallback, trace[..|trace| - 1]);
    }
  }

  /** A request that is entered goes out under the id its promise waits for;
      one that cannot be read takes an id too, and only settles its promise. */
  lemma {:induction false} RequestsGoOutUnderTheirId<P, V>(hasCallback: bool, trace: seq<Event<P, V>>, j: nat)
    requires j < |trace| && (trace[j].Track? || trace[j].TrackJson?)
    ensures NextId(trace[..j + 1]) == NextId(trace[..j]) + 1
    ensures var id := NextId(trace[..j]);
            if trace[j].Track? || trace[j].verdict == Parsed then
              && EffectAt(hasCallback, trace, j) == Sent(id)
              && id in Run(hasCallback, trace[..j + 1]).tracking
              && Run(hasCallback, trace[..j + 1]).tracking[id] == trace[j].promise
            else
              && Run(hasCallback, trace[..j + 1]).tracking == Run(hasCallback, trace[..j]).tracking
              && EffectAt(hasCallback, trace, j)
                 == Settle(trace[j].promise,
                           Err(Error(0, if trace[j].verdict == DecodeFailed
                                        then "Failed to decode json request from string"
                                        else "Failed to parse request")))
  {
    NextIdIsRequestId(hasCallback, trace[..j]);
    assert trace[..j + 1][..j] == trace[..j];
  }

  /** The table holds exactly the promises that are still awaited: an id is a
      key exactly when some event entered its promise and no response came
      since. Keys lie between 100 and the next id. */
  lemma {:induction false} TableIsAwaited<P(!new), V(!new)>(hasCallback: bool, trace: seq<Event<P, V>>, id: nat)
    ensures id in Run(hasCallback, trace).tracking <==> exists i :: Awaiting(trace, i, id)
    ensures forall i | Awaiting(trace, i, id) ::
              && FIRST_ID <= id < NextId(trace)
              && Run(hasCallback, trace).tracking[id] == trace[i].promise
  {
    if trace == [] {
      return;
    }
    var n := |trace| - 1;
    var p, e := trace[..n], trace[n];
    NextIdMonotone(trace, n);
    NextIdIsRequestId(hasCallback, p);
    TableIsAwaited(hasCallback, p, id);
    forall i
      ensures Awaiting(trace, i, id) <==>
                if i == n then e.Tracks() && NextId(p) == id else Awaiting(p, i, id) && !e.RespondsTo(id)
    {
      AwaitingGrows(trace, i, id);
    }
    TableStep(hasCallback, trace, id);
  }

  lemma {:induction false} TableStep<P(!new), V(!new)>(hasCallback: bool, trace: seq<Event<P, V>>, id: nat)
    requires trace != []
    requires var n := |trace| - 1;
             var p, e := trace[..n], trace[n];
             && Run(hasCallback, p).requestId == NextId(p)
             && FIRST_ID <= NextId(p) <= NextId(trace)
             && (id in Run(hasCallback, p).tracking <==> exists i :: Awaiting(p, i, id))
             && (forall i | Awaiting(p, i, id) ::
                   FIRST_ID <= id < NextId(p) && Run(hasCallback, p).tracking[id] == p[i].promise)
             && (forall i :: Awaiting(trace, i, id) <==>
                   if i == n then e.Tracks() && NextId(p) == id else Awaiting(p, i, id) && !e.RespondsTo(id))
    ensures id in Run(hasCallback, trace).tracking <==> exists i :: Awaiting(trace, i, id)
    ensures forall i | Awaiting(trace, i, id) ::
              FIRST_ID <= id < NextId(trace) && Run(hasCallback, trace).tracking[id] == trace[i].promise
  {
    var n := |trace| - 1;
    var p, e := trace[..n], trace[n];
    var before, after := Run(hasCallback, p).tracking, Run(hasCallback, trace).tracking;
    if e.Tracks() && NextId(p) == id {
      assert Awaiting(trace, n, id);
    } else {
      assert id in after <==> id in before && !e.RespondsTo(id);
      if id in before {
        var i :| Awaiting(p, i, id);
        assert Awaiting(trace, i, id) <==> !e.RespondsTo(id);
      }
    }
  }

  /** Response routing. A response settles a promise exactly when it is the
      first one, after the request, that bears the request's id; it settles
      that request's promise. Every other response goes to the callback. */
  lemma {:induction false} ResponseRouting<P(!new), V(!new)>(hasCallback: bool, trace: seq<Event<P, V>>, j: nat)
    requires j < |trace| && trace[j].IsResponse()
    ensures forall i | FirstResponse(trace, i, j) ::
              EffectAt(hasCallback, trace, j)
              == Settle(trace[i].promise,
                        if trace[j].OnResult? then Ok(trace[j].value) else Err(Error(0, trace[j].error.message)))
    ensures (exists i :: FirstResponse(trace, i, j)) <==> EffectAt(hasCallback, trace, j).Settle?
    ensures (forall i :: !FirstResponse(trace, i, j)) ==>
              EffectAt(hasCallback, trace, j)
              == if !hasCallback then Nothing
                 else Callback(trace[j].id, if trace[j].OnResult? then Ok(trace[j].value) else Err(trace[j].error))
  {
    var p, id := trace[..j], trace[j].id;
    TableIsAwaited(hasCallback, p, id);
    forall i
      ensures FirstResponse(trace, i, j) <==> Awaiting(p, i, id)
    {
      if 0 <= i < j {
        assert p[..i] == trace[..i];
      }
    }
  }

  /** The request whose promise event `j` settles: `j` itself, when its text
      could not be read, or the request that `j` is the first response to. */
  lemma {:induction false} SettledRequest<P(!new), V(!new)>(hasCallback: bool, trace: seq<Event<P, V>>, j: nat)
    returns (i: nat)
    requires j < |trace| && EffectAt(hasCallback, trace, j).Settle?
    ensures i <= j && trace[i].TakesId() && trace[i].promise == EffectAt(hasCallback, trace, j).promise
    ensures if i == j then !trace[i].Tracks() else FirstResponse(trace, i, j)
  {
    if trace[j].IsResponse() {
      ResponseRouting(hasCallback, trace, j);
      i :| FirstResponse(trace, i, j);
    } else {
      i := j;
    }
  }

  /** No promise is settled twice, as long as no promise is handed in twice. */
  lemma {:induction false} SettledAtMostOnce<P(!new), V(!new)>(
    hasCallback: bool, trace: seq<Event<P, V>>, j: nat, k: nat)
    requires forall x, y | 0 <= x < y < |trace| && trace[x].TakesId() && trace[y].TakesId() ::
               trace[x].promise != trace[y].promise
    requires j < |trace| && k < |trace|
    requires EffectAt(hasCallback, trace, j).Settle? && EffectAt(hasCallback, trace, k).Settle?
    requires EffectAt(hasCallback, trace, j).promise == EffectAt(hasCallback, trace, k).promise
    ensures j == k
  {
    var x := SettledRequest(hasCallback, trace, j);
    var y := SettledRequest(hasCallback, trace, k);
    assert x == y;
  }

  /** A response whose id was never taken by a tracked request always reaches
      the callback. */
  lemma {:induction false} UntakenIdsReachTheCallback<P(!new), V(!new)>(trace: seq<Event<P, V>>, j: nat)
    requires j < |trace| && trace[j].IsResponse()
    requires forall i | 0 <= i < j && trace[i].TakesId() :: NextId(trace[..i]) != trace[j].id
    ensures EffectAt(true, trace, j) == Callback(trace[j].id, trace[j].Report())
  {
    ResponseRouting(true, trace, j);
    forall i
      ensures !FirstResponse(trace, i, j)
    {
    }
  }

  lemma {:induction false} TracksTakeIds<P, V>(p: P, n: nat)
    ensures var trace: seq<Event<P, V>> := seq(n, i => Track(p));
            NextId(trace) == FIRST_ID + n
  {
    if n > 0 {
      var trace: seq<Event<P, V>> := seq(n, i => Track(p));
      TracksTakeIds<P, V>(p, n - 1);
      assert trace[..n - 1] == seq(n - 1, i => Track(p));
    }
  }

  /** Response `j` of a run bears id `x` and reaches the callback. */
  ghost predicate ReachesCallback<P(!new), V(!new)>(trace: seq<Event<P, V>>, j: int, x: nat) {
    0 <= j < |trace| && trace[j].RespondsTo(x) ==> EffectAt(true, trace, j) == Callback(x, trace[j].Report())
  }

  /** Which ids a caller may use for callback requests without looking at the
      run: those below the first tracked id, and no other. */
  lemma {:induction false} AlwaysSafeIdsAre<P(!new), V(!new)>(x: nat, p: P, v: V)
    ensures (forall trace: seq<Event<P, V>>, j :: ReachesCallback(trace, j, x)) <==> x < 100
  {
    if x < 100 {
      forall trace: seq<Event<P, V>>, j
        ensures ReachesCallback(trace, j, x)
      {
        if 0 <= j < |trace| && trace[j].RespondsTo(x) {
          TableIsAwaited(true, trace[..j], x);
        }
      }
    } else {
      var n := x - 100;
      var tracks: seq<Event<P, V>> := seq(n + 1, i => Track(p));
      var trace := tracks + [OnResult(x, v)];
      assert tracks[..n] == seq(n, i => Track(p)) && trace[..n] == tracks[..n];
      TracksTakeIds<P, V>(p, n);
      assert FirstResponse(trace, n, n + 1);
      ResponseRouting(true, trace, n + 1);
      assert !ReachesCallback(trace, n + 1, x);
    }
  }

  ghost predicate CallbackIdsAreBelow<P(!new), V(!new)>(trace: seq<Event<P, V>>, bound: nat) {
    forall j | 0 <= j < |trace| && trace[j].CallbackRequest? :: trace[j].id < bound
  }

  /** With such callback ids, the id of an entered request goes out only with
      that request: whoever answers it answers this request. */
  lemma {:induction false} TrackedIdsGoOutOnce<P(!new), V(!new)>(
    hasCallback: bool, trace: seq<Event<P, V>>, i: nat, j: nat)
    requires CallbackIdsAreBelow(trace, 100) && i < |trace| && j < |trace| && trace[i].Tracks()
    requires EffectAt(hasCallback, trace, j) == Sent(NextId(trace[..i]))
    ensures j == i
  {
    NextIdMonotone(trace[..i], 0);
    if trace[j].TakesId() {
      RequestsGoOutUnderTheirId(hasCallback, trace, j);
      if i < j {
        IdsAreNeverReused(trace, i, j);
      } else if j < i {
        IdsAreNeverReused(trace, j, i);
      }
    }
  }

  /** And by looking at the table: an id below the next one that is not in the
      table will never be in it again, so every later response with it reaches
      the callback. */
  lemma {:induction false} FreedIdsStayFree<P(!new), V(!new)>(
    hasCallback: bool, trace: seq<Event<P, V>>, n: nat, id: nat)
    requires n <= |trace|
    requires id < Run(hasCallback, trace[..n]).requestId && id !in Run(hasCallback, trace[..n]).tracking
    ensures id < Run(hasCallback, trace).requestId && id !in Run(hasCallback, trace).tracking
  {
    if n == |trace| {
      assert trace[..n] == trace;
    } else {
      var p := trace[..|trace| - 1];
      assert p[..n] == trace[..n];
      FreedIdsStayFree(hasCallback, p, n, id);
    }
  }

  lemma {:induction false} FreedIdsReachTheCallback<P(!new), V(!new)>(
    trace: seq<Event<P, V>>, n: nat, j: nat, id: nat)
    requires n <= j < |trace| && trace[j].RespondsTo(id)
    requires id < Run(true, trace[..n]).requestId && id !in Run(true, trace[..n]).tracking
    ensures EffectAt(true, trace, j) == Callback(id, trace[j].Report())
  {
    assert trace[..j][..n] == trace[..n];
    FreedIdsStayFree(true, trace[..j], n, id);
  }

  /** Ids of callback requests are chosen by the caller and are not kept apart
      from tracked ids: the answer to callback request 100 settles an unrelated
      promise, and the answer to that promise's own request goes to the callback. */
  lemma {:induction false} CallbackIdsCanCollide(own: int, other: int)
    ensures var trace: seq<Event<nat, int>> :=
              [CallbackRequest(100), Track(0), OnResult(100, other), OnResult(100, own)];
            && EffectAt(true, trace, 2) == Settle(0, Ok(other))
            && EffectAt(true, trace, 3) == Callback(100, Ok(own))
  {
    var trace: seq<Event<nat, int>> := [CallbackRequest(100), Track(0), OnResult(100, other), OnResult(100, own)];
    assert trace[..3][..2] == trace[..2] && trace[..2][..1] == trace[..1] && trace[..1][..0] == [];
    assert Run(true, trace[..1]) == State(map[], 100);
    assert Run(true, trace[..2]) == State(map[100 := 0], 101);
    assert Run(true, trace[..3]).tracking == map[];
  }
}
