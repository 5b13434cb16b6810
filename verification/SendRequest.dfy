/** One request of the HTTP worker, sent through a session and possibly retried
    on an archival worker (`send_request_function` in ton-http-api/tonlib_worker.h),
    against a cluster of lite servers that answer as they like. */
module SendRequest {
  import opened ContractIds
  import opened Results
  import opened WorkerPool

  // ----- Watching a log -----

  /** What a watcher of the log knows: whether every use of an id so far went
      where it should, and which contract was loaded last and through which workers. */
  datatype Watch = Watch(good: bool, held: Option<(int, seq<nat>)>)

  function WatchStep(w: Watch, e: Entry): Watch {
    if e.Sent? && e.call.UsesId() then w.(good := w.good && w.held == Some((e.call.id, e.workers)))
    else if e.Sent? && e.call.Load? && e.Wf() && e.Delivered().Ok? && e.Delivered().value.Loaded? then
      w.(held := Some((e.Delivered().value.id, e.workers)))
    else w
  }

  /** The watcher's view of the log from entry `base` on. */
  function Follow(log: seq<Entry>, base: nat): Watch {
    if |log| <= base then Watch(true, None) else WatchStep(Follow(log[..|log| - 1], base), log[|log| - 1])
  }

  ghost predicate SuccessfulLoad(log: seq<Entry>, j: int, id: int) {
    && 0 <= j < |log| && log[j].Sent? && log[j].call.Load? && log[j].Wf()
    && log[j].Delivered() == Ok(Loaded(id))
  }

  /** Entry `k` names an id, and the last successful load before it, at `j`,
      returned that id and went to the very same workers. */
  ghost predicate UseFollowsLoad(log: seq<Entry>, base: nat, j: int, k: int) {
    && base <= j < k < |log| && log[k].Sent? && log[k].call.UsesId()
    && SuccessfulLoad(log, j, log[k].call.id) && log[j].workers == log[k].workers
    && forall i, id | j < i < k :: !SuccessfulLoad(log, i, id)
  }

  ghost predicate UseIsFollowed(log: seq<Entry>, base: nat, k: int) {
    exists j :: UseFollowsLoad(log, base, j, k)
  }

  ghost predicate HeldFrom(log: seq<Entry>, base: nat, j: int, id: int) {
    base <= j && SuccessfulLoad(log, j, id) && forall i, x | j < i < |log| :: !SuccessfulLoad(log, i, x)
  }

  ghost predicate HeldMeans(log: seq<Entry>, base: nat) {
    match Follow(log, base).held
    case None => forall i, x | base <= i :: !SuccessfulLoad(log, i, x)
    case Some(h) => exists j :: HeldFrom(log, base, j, h.0) && log[j].workers == h.1
  }

  lemma {:induction false} LoadsInPrefix(log: seq<Entry>, n: nat, j: int, id: int)
    requires j < n <= |log|
    ensures SuccessfulLoad(log, j, id) <==> SuccessfulLoad(log[..n], j, id)
  {
  }

  lemma {:induction false} HeldIsLastLoad(log: seq<Entry>, base: nat)
    ensures HeldMeans(log, base)
  {
    if |log| > base {
      var n := |log| - 1;
      var p := log[..n];
      HeldIsLastLoad(p, base);
      forall i, x | i < n
        ensures SuccessfulLoad(log, i, x) <==> SuccessfulLoad(p, i, x)
      {
        LoadsInPrefix(log, n, i, x);
      }
      if x :| SuccessfulLoad(log, n, x) {
        assert HeldFrom(log, base, n, x);
      } else if Follow(p, base).held.Some? {
        var h := Follow(p, base).held.value;
        var j :| HeldFrom(p, base, j, h.0) && p[j].workers == h.1;
        assert HeldFrom(log, base, j, h.0);
      }
    }
  }

  /** What the watcher's verdict means: every call that names an id went to the
      same workers as the last successful load, and named what that load returned. */
  lemma {:induction false} GoodMeansUsesFollowLoads(log: seq<Entry>, base: nat)
    ensures Follow(log, base).good
      <==> forall k | base <= k < |log| && log[k].Sent? && log[k].call.UsesId() :: UseIsFollowed(log, base, k)
  {
    if |log| > base {
      var n := |log| - 1;
      var p := log[..n];
      GoodMeansUsesFollowLoads(p, base);
      forall k | base <= k < n
        ensures UseIsFollowed(log, base, k) <==> UseIsFollowed(p, base, k)
      {
        FollowedInPrefix(log, n, base, k);
      }
      if log[n].Sent? && log[n].call.UsesId() {
        LastUse(log, base);
      }
    }
  }

  lemma {:induction false} FollowedInPrefix(log: seq<Entry>, n: nat, base: nat, k: int)
    requires k < n <= |log|
    ensures UseIsFollowed(log, base, k) <==> UseIsFollowed(log[..n], base, k)
  {
    forall j
      ensures UseFollowsLoad(log, base, j, k) <==> UseFollowsLoad(log[..n], base, j, k)
    {
      forall i, id | i < k
        ensures SuccessfulLoad(log, i, id) <==> SuccessfulLoad(log[..n], i, id)
      {
        LoadsInPrefix(log, n, i, id);
      }
    }
  }

  lemma {:induction false} LastUse(log: seq<Entry>, base: nat)
    requires |log| > base && log[|log| - 1].Sent? && log[|log| - 1].call.UsesId()
    ensures var e := log[|log| - 1];
            UseIsFollowed(log, base, |log| - 1)
            <==> Follow(log[..|log| - 1], base).held == Some((e.call.id, e.workers))
  {
    var n := |log| - 1;
    var p, e := log[..n], log[n];
    HeldIsLastLoad(p, base);
    forall i, x | i < n
      ensures SuccessfulLoad(log, i, x) <==> SuccessfulLoad(p, i, x)
    {
      LoadsInPrefix(log, n, i, x);
    }
    var held := Follow(p, base).held;
    if held == Some((e.call.id, e.workers)) {
      var j :| HeldFrom(p, base, j, e.call.id) && p[j].workers == e.workers;
      assert UseFollowsLoad(log, base, j, n);
    }
    if j :| UseFollowsLoad(log, base, j, n) {
      assert SuccessfulLoad(p, j, e.call.id);
      var h := held.value;
      var k :| HeldFrom(p, base, k, h.0) && p[k].workers == h.1;
      assert j == k;
    }
  }

  /** The worker that issued the id of a successful load. */
  function Issuer(e: Entry): nat
    requires e.Sent? && e.Wf()
  {
    e.workers[e.from]
  }

  /** Contract-id affinity, and exactly when it holds: in a run the watcher
      finds good, a call that names an id reaches the worker that issued it;
      it reaches nobody else exactly when the contract was loaded through one
      worker only. */
  lemma {:induction false} UsesReachTheIssuer(log: seq<Entry>, base: nat, k: nat)
    requires Follow(log, base).good && base <= k < |log| && log[k].Sent? && log[k].call.UsesId()
    ensures exists j ::
              && UseFollowsLoad(log, base, j, k) && Issuer(log[j]) in log[k].workers
              && (NoDuplicates(log[j].workers) ==>
                    ((forall w | w in log[k].workers :: w == Issuer(log[j])) <==> |log[j].workers| == 1))
  {
    GoodMeansUsesFollowLoads(log, base);
    assert UseIsFollowed(log, base, k);
    var j :| UseFollowsLoad(log, base, j, k);
    var ws := log[j].workers;
    if |ws| > 1 && NoDuplicates(ws) {
      assert ws[0] in log[k].workers && ws[1] in log[k].workers && ws[0] != ws[1];
    }
  }

  // ----- The cluster -----

  class Cluster {
    const size: nat
    var workers: seq<WorkerInfo>
    var tables: Tables
    var log: seq<Entry>

    ghost predicate Sized()
      reads this
    {
      |workers| == size == |tables|
    }

    /** The tables are what the log of the whole run made of them. */
    ghost predicate Valid()
      reads this
    {
      Sized() && tables == Replay(NothingLoaded(size), log, 0)
    }

    constructor (workers: seq<WorkerInfo>)
      ensures Valid() && log == [] && this.workers == workers
    {
      size := |workers|;
      this.workers := workers;
      tables := NothingLoaded(|workers|);
      log := [];
    }

    /** Between a caller's requests the actor may have learned anything about its workers. */
    method Drift()
      requires Valid()
      modifies this`workers
      ensures Valid()
    {
      for i := 0 to size
        invariant |workers| == size
      {
        var info: WorkerInfo := *;
        workers := workers[i := info];
      }
    }

    /** Selection of workers on the actor, logged with what the actor knew then. */
    method GetSessionFor(options: RequestParameters, session: Session?) returns (r: SessionResult)
      requires Valid() && (session != null ==> UsableSession(this, session))
      modifies this, session
      ensures Valid() && tables == old(tables)
      ensures |log| == |old(log)| + 1 && log == old(log) + [log[|old(log)|]]
      ensures var e := log[|old(log)|];
              && e.Chosen? && |e.flags| == size && e.options == options && Honours(e.flags, options, e.selection)
              && (r.Escaped? <==> e.selection.Thrown?)
              && (r.Unavailable? <==> e.selection == Selected([]))
              && (r.Unavailable? ==> r.error == NO_WORKERS)
              && (r.Bound? ==> e.selection == Selected(r.session.activeWorkers) && r.session.activeWorkers != [])
      ensures r.Bound? ==> UsableSession(this, r.session)
      ensures r.Bound? ==> if session == null then fresh(r.session) else r.session == session
      ensures r.Bound? && options.mode.Single? ==> |r.session.activeWorkers| == 1
      ensures session != null && !r.Bound? ==> session.activeWorkers == old(session.activeWorkers)
      ensures forall base: nat | base <= |old(log)| :: Follow(log, base) == Follow(old(log), base)
    {
      Drift();
      ghost var selection;
      var flags := workers;
      r, selection := GetSession(workers, options, session);
      var recorded := if r.Bound? then Selected(r.session.activeWorkers)
                      else if r.Unavailable? then Selected([]) else Thrown;
      Record(Chosen(flags, options, recorded));
      if r.Bound? {
        forall i | 0 <= i < |r.session.activeWorkers|
          ensures r.session.activeWorkers[i] < size
        {
          assert Eligible(flags, options.archival, r.session.activeWorkers[i]);
        }
      }
    }

    /** What was done, also to the tables, is recorded. */
    method Record(e: Entry)
      requires Sized() && tables == ApplyEntry(Replay(NothingLoaded(size), log, 0), e)
      modifies this`log
      ensures Valid() && log == old(log) + [e]
      ensures forall base: nat | base <= |old(log)| :: Follow(log, base) == WatchStep(Follow(old(log), base), e)
    {
      ReplaySnoc(NothingLoaded(size), log, e, 0);
      log := log + [e];
      assert log[..|old(log)|] == old(log);
    }

    /** Whose answer the caller gets. */
    method Pick(answers: seq<Result<Answer>>) returns (from: nat)
      requires answers != []
      ensures from < |answers| && (answers[from].Err? ==> forall i | 0 <= i <= from :: answers[i].Err?)
    {
      from :| 0 <= from < |answers| && (answers[from].Err? ==> forall i | 0 <= i <= from :: answers[i].Err?) by {
        assert answers[0].Err? ==> forall i | 0 <= i <= 0 :: answers[i].Err?;
      }
    }

    /** Worker `w` answers as it likes, and its table changes with its answer. */
    method AnswerOf(w: nat, call: Call) returns (a: Result<Answer>)
      requires Sized() && w < size
      modifies this`tables
      ensures Sized() && tables == ApplyOne(old(tables), w, call, a) && Fits(call, a)
      ensures call.Load? && a.Ok? && a.value.Loaded? ==> a.value.id !in old(tables)[w]
    {
      a := *;
      if !Fits(call, a) || (call.Load? && a.Ok? && a.value.id in tables[w]) {
        a := Err(Error(500, "failed"));
      }
      tables := ApplyOne(tables, w, call, a);
    }

    method CollectAnswers(ws: seq<nat>, call: Call) returns (answers: seq<Result<Answer>>)
      requires Sized() && forall i | 0 <= i < |ws| :: ws[i] < size
      modifies this`tables
      ensures Sized() && |answers| == |ws|
      ensures forall i | 0 <= i < |answers| :: Fits(call, answers[i])
      ensures FreshIds(old(tables), ws, call, answers) && tables == ApplyAll(old(tables), ws, call, answers)
    {
      answers := [];
      ghost var before, done: seq<nat> := tables, [];
      for i := 0 to |ws|
        invariant Sized() && done <= ws && |answers| == |done| == i
        invariant forall k | 0 <= k < i :: Fits(call, answers[k])
        invariant FreshIds(before, done, call, answers) && tables == ApplyAll(before, done, call, answers)
      {
        var a := AnswerOf(ws[i], call);
        OneMoreAnswer(before, done, ws[i], call, answers, a);
        answers, done := answers + [a], done + [ws[i]];
      }
      assert done == ws;
    }

    /** The fan-out of one call to `ws`: every worker answers as it likes, and
        the caller gets the answer of one of them, an error only when that
        worker and all before it failed. */
    method Exchange(ws: seq<nat>, call: Call) returns (r: Result<Answer>)
      requires Valid() && ws != [] && forall i | 0 <= i < |ws| :: ws[i] < size
      modifies this`tables, this`log
      ensures Valid()
      ensures |log| == |old(log)| + 1 && log == old(log) + [log[|old(log)|]]
      ensures var e := log[|old(log)|];
              && e.Sent? && e.Wf() && e.workers == ws && e.call == call && r == e.Delivered()
              && (forall i | 0 <= i < |e.answers| :: Fits(call, e.answers[i]))
              && (r.Err? ==> forall i | 0 <= i <= e.from :: e.answers[i].Err?)
              && FreshIds(old(tables), ws, call, e.answers)
              && tables == ApplyAll(old(tables), ws, call, e.answers)
      ensures Fits(call, r)
      ensures |ws| == 1 ==> tables == ApplyOne(old(tables), ws[0], call, r)
      ensures |ws| == 1 && call.Load? && r.Ok? ==> r.value.id !in old(tables)[ws[0]]
      ensures forall base: nat | base <= |old(log)| ::
                Follow(log, base) == WatchStep(Follow(old(log), base), log[|old(log)|])
    {
      var answers := CollectAnswers(ws, call);
      if |ws| == 1 {
        OneAnswerApplied(old(tables), ws, call, answers);
      }
      var from := Pick(answers);
      Record(Sent(ws, call, answers, from));
      r := answers[from];
    }
  }

  ghost predicate UsableSession(cluster: Cluster, session: Session)
    reads session
  {
    && session.activeWorkers != []
    && forall i | 0 <= i < |session.activeWorkers| :: session.activeWorkers[i] < cluster.size
  }

  // ----- send_request_function -----

  ghost predicate IsChoice(e: Entry, options: RequestParameters) {
    e.Chosen? && e.options == options && Honours(e.flags, options, e.selection)
  }

  ghost predicate IsSending(e: Entry, ws: seq<nat>, call: Call) {
    e.Sent? && e.Wf() && e.workers == ws && e.call == call
  }

  /** The log `es` of one request that starts with the workers `ws` in its session. */
  ghost predicate SendingLog(
    options: RequestParameters, call: Call, ws: seq<nat>, retry: bool, es: seq<Entry>,
    escaped: bool, result: Result<Answer>, after: Option<seq<nat>>)
  {
    && es != [] && IsSending(es[0], ws, call)
    && var first := es[0].Delivered();
       if !retry || first.Ok? then |es| == 1 && !escaped && result == first && after == Some(ws)
       else Retried(options, call, ws, first, es, escaped, result, after)
  }

  /** The log of a request whose sending `es[0]` was answered `first`, an error,
      and that tries once more. */
  ghost predicate Retried(
    options: RequestParameters, call: Call, ws: seq<nat>, first: Result<Answer>, es: seq<Entry>,
    escaped: bool, result: Result<Answer>, after: Option<seq<nat>>)
  {
    && |es| >= 2 && IsChoice(es[1], options.(archival := Some(true)))
    && match es[1].selection
       case Thrown => |es| == 2 && escaped && after == Some(ws)
       case Selected(ws2) =>
         && !escaped
         && if ws2 == [] then |es| == 2 && result == Err(NO_WORKERS) && after == Some(ws)
            else
              && |es| == 3 && IsSending(es[2], ws2, call) && after == Some(ws2)
              && var second := es[2].Delivered();
                 result == if second.Err? && second.error.code == -3 then first else second
  }

  /** The log of one request, `before` being the workers of the session it was
      given, if any, and `after` those of the session it returns. */
  ghost predicate RequestLog(
    options: RequestParameters, call: Call, before: Option<seq<nat>>, retry: bool, es: seq<Entry>,
    escaped: bool, result: Result<Answer>, after: Option<seq<nat>>)
  {
    match before
    case Some(ws) => SendingLog(options, call, ws, retry, es, escaped, result, after)
    case None =>
      && es != [] && IsChoice(es[0], options)
      && match es[0].selection
         case Thrown => |es| == 1 && escaped && after == None
         case Selected(ws) =>
           if ws == [] then |es| == 1 && !escaped && result == Err(NO_WORKERS) && after == None
           else SendingLog(options, call, ws, retry, es[1..], escaped, result, after)
  }

  function Workers(session: Session?): Option<seq<nat>>
    reads session
  {
    if session == null then None else Some(session.activeWorkers)
  }

  /** The part of `send_request_function` that has a session: send, and on
      failure rebind the session to an archival worker and send once more. */
  method SendThroughSession(
    cluster: Cluster, options: RequestParameters, call: Call, session: Session, retryArchival: bool)
    returns (escaped: bool, result: Result<Answer>)
    requires cluster.Valid() && UsableSession(cluster, session)
    modifies cluster, session
    ensures cluster.Valid() && UsableSession(cluster, session) && old(cluster.log) <= cluster.log
    ensures SendingLog(options, call, old(session.activeWorkers), retryArchival,
                       cluster.log[|old(cluster.log)|..], escaped, result, Some(session.activeWorkers))
    ensures options.mode.Single? ==> !escaped
    ensures !escaped ==> Fits(call, result)
    ensures options.mode.Single? && |old(session.activeWorkers)| == 1 ==>
              AnsweredByOne(old(cluster.tables), cluster.tables, session.activeWorkers, call, result)
  {
    ghost var start := |cluster.log|;
    result := cluster.Exchange(session.activeWorkers, call);
    escaped := false;
    assert cluster.log[start..] == [cluster.log[start]];
    if !retryArchival || result.Ok? {
      return;
    }
    escaped, result := RetryArchival(cluster, options, call, session, result.error, start);
  }

  /** What one worker's table shows of a request that one worker answered. */
  ghost predicate AnsweredByOne(
    before: Tables, after: Tables, workers: seq<nat>, call: Call, result: Result<Answer>)
  {
    && |workers| == 1 && after == ApplyOne(before, workers[0], call, result)
    && (call.Load? && result.Ok? && result.value.Loaded? && workers[0] < |before| ==>
          result.value.id !in before[workers[0]])
  }

  /** The archival retry, after the first sending failed. */
  method RetryArchival(
    cluster: Cluster, options: RequestParameters, call: Call, session: Session, error: Error, ghost start: nat)
    returns (escaped: bool, result: Result<Answer>)
    requires cluster.Valid() && UsableSession(cluster, session)
    requires |cluster.log| == start + 1
    modifies cluster, session
    ensures cluster.Valid() && UsableSession(cluster, session) && old(cluster.log) <= cluster.log
    ensures Retried(options, call, old(session.activeWorkers), Err(error), cluster.log[start..],
                    escaped, result, Some(session.activeWorkers))
    ensures options.mode.Single? ==> !escaped
    ensures !escaped ==> Fits(call, result)
    ensures options.mode.Single? && |old(session.activeWorkers)| == 1 ==>
              AnsweredByOne(old(cluster.tables), cluster.tables, session.activeWorkers, call, result)
  {
    var acquired := cluster.GetSessionFor(options.(archival := Some(true)), session);
    assert cluster.log[start..] == [cluster.log[start], cluster.log[start + 1]];
    if acquired.Escaped? {
      return true, Err(error);
    }
    if acquired.Unavailable? {
      return false, Err(acquired.error);
    }
    result := cluster.Exchange(acquired.session.activeWorkers, call);
    assert cluster.log[start..] == [cluster.log[start], cluster.log[start + 1], cluster.log[start + 2]];
    escaped := false;
    if result.Err? && result.error.code == -3 {
      result := Err(error);
    }
  }

  /** The log ends, after entry `base`, with the sending that gave `result`. */
  ghost predicate EndsWith(log: seq<Entry>, base: nat, workers: seq<nat>, call: Call, result: Result<Answer>) {
    && base < |log| && IsSending(log[|log| - 1], workers, call) && log[|log| - 1].Delivered() == result
  }

  /** Entry `k` ends a request for `call` with `error`: its sending failed, or nobody was found. */
  ghost predicate FailsAt(log: seq<Entry>, base: nat, k: int, call: Call, error: Error) {
    && base <= k < |log|
    && if log[k].Sent? then log[k].Wf() && log[k].call == call && log[k].Delivered() == Err(error)
       else log[k].selection == Selected([]) && error == Error(-3, "no workers available")
  }

  ghost predicate FailsIn(log: seq<Entry>, base: nat, call: Call, error: Error) {
    exists k :: FailsAt(log, base, k, call, error)
  }

  /** Every sending from entry `base` on is of `call`. */
  ghost predicate OnlySends(log: seq<Entry>, base: nat, call: Call) {
    forall k | base <= k < |log| && log[k].Sent? :: log[k].call == call
  }

  /** A request with retry that failed found nobody, or its sending failed, an
      archival worker was selected, and the sending to that one failed too. */
  ghost predicate TriedTwice(log: seq<Entry>, base: nat, call: Call) {
    var n := |log|;
    && base < n
    && if log[n - 1].Chosen? then log[n - 1].selection == Selected([])
       else
         && base + 3 <= n && log[n - 1].Wf() && log[n - 1].call == call && log[n - 1].Delivered().Err?
         && log[n - 2].Chosen? && log[n - 2].options.archival == Some(true)
         && log[n - 2].selection == Selected(log[n - 1].workers)
         && log[n - 3].Sent? && log[n - 3].Wf() && log[n - 3].call == call && log[n - 3].Delivered().Err?
  }

  /** How a request through a session fails. */
  lemma {:induction false} SendingFails(
    options: RequestParameters, call: Call, ws: seq<nat>, retry: bool, log: seq<Entry>, base: nat,
    result: Result<Answer>, after: seq<nat>)
    requires base <= |log| && SendingLog(options, call, ws, retry, log[base..], false, result, Some(after))
    ensures OnlySends(log, base, call)
    ensures result.Err? ==> FailsIn(log, base, call, result.error)
    ensures result.Err? && retry ==> TriedTwice(log, base, call)
    ensures !retry ==> |log| == base + 1
  {
    var es := log[base..];
    forall k | base <= k < |log|
      ensures log[k] == es[k - base]
    {
    }
    if result.Err? {
      if |es| == 1 {
        assert FailsAt(log, base, base, call, result.error);
      } else if |es| == 2 {
        assert FailsAt(log, base, base + 1, call, result.error);
      } else if result == es[0].Delivered() {
        assert FailsAt(log, base, base, call, result.error);
      } else {
        assert FailsAt(log, base, base + 2, call, result.error);
      }
    }
  }

  /** How a request fails, and what it sends. */
  lemma {:induction false} RequestFails(
    options: RequestParameters, call: Call, before: Option<seq<nat>>, retry: bool, log: seq<Entry>, base: nat,
    result: Result<Answer>, after: Option<seq<nat>>)
    requires base <= |log| && RequestLog(options, call, before, retry, log[base..], false, result, after)
    ensures OnlySends(log, base, call)
    ensures result.Err? ==> FailsIn(log, base, call, result.error)
    ensures result.Err? && retry ==> TriedTwice(log, base, call)
    ensures before.Some? && !retry ==> |log| == base + 1
    ensures before.None? ==> base < |log| && IsChoice(log[base], options)
  {
    if before.Some? {
      SendingFails(options, call, before.value, retry, log, base, result, after.value);
    } else {
      assert log[base] == log[base..][0];
      if after.Some? {
        assert log[base..][1..] == log[base + 1..];
        SendingFails(options, call, log[base].selection.workers, retry, log, base + 1, result, after.value);
        assert result.Err? ==> FailsIn(log, base, call, result.error) by {
          if result.Err? {
            var k :| FailsAt(log, base + 1, k, call, result.error);
            assert FailsAt(log, base, k, call, result.error);
          }
        }
      } else {
        assert FailsAt(log, base, base, call, result.error);
      }
    }
  }

  /** A watcher after a request that names no id. */
  function Holding(w: Watch, call: Call, result: Result<Answer>, workers: seq<nat>): Watch {
    if call.Load? && result.Ok? && result.value.Loaded? then w.(held := Some((result.value.id, workers))) else w
  }

  lemma {:induction false} FollowSnoc(log: seq<Entry>, e: Entry, base: nat)
    requires base <= |log|
    ensures Follow(log + [e], base) == WatchStep(Follow(log, base), e)
  {
    assert (log + [e])[..|log|] == log;
  }

  /** A watcher who has seen nothing wrong, followed by one who starts afresh. */
  lemma {:induction false} FollowComposes(log: seq<Entry>, longer: seq<Entry>, base: nat)
    requires log <= longer && base <= |log| && Follow(longer, |log|).good
    ensures Follow(longer, base).good == Follow(log, base).good
    ensures Follow(longer, |log|).held.Some? ==> Follow(longer, base).held == Follow(longer, |log|).held
  {
    if log == longer {
    } else {
      var p := longer[..|longer| - 1];
      assert log <= p;
      FollowComposes(log, p, base);
    }
  }

  /** What a watcher sees of a request through a session. */
  lemma {:induction false} SendingIsWatched(
    options: RequestParameters, call: Call, ws: seq<nat>, retry: bool, log: seq<Entry>, es: seq<Entry>,
    result: Result<Answer>, after: seq<nat>, base: nat)
    requires SendingLog(options, call, ws, retry, es, false, result, Some(after)) && Fits(call, result)
    requires base <= |log| && !call.UsesId()
    ensures Follow(log + es, base) == Holding(Follow(log, base), call, result, after)
  {
    FollowSnoc(log, es[0], base);
    if |es| == 1 {
      assert es == [es[0]];
    } else {
      FollowSnoc(log + [es[0]], es[1], base);
      if |es| == 2 {
        assert log + es == log + [es[0]] + [es[1]];
      } else {
        FollowSnoc(log + [es[0]] + [es[1]], es[2], base);
        assert log + es == log + [es[0]] + [es[1]] + [es[2]];
      }
    }
  }

  /** The end of a successful request through a session, and its sendings when
      the session has one worker. */
  lemma {:induction false} SendingEnds(
    options: RequestParameters, call: Call, ws: seq<nat>, retry: bool, log: seq<Entry>, base: nat,
    escaped: bool, result: Result<Answer>, after: seq<nat>)
    requires base <= |log| && SendingLog(options, call, ws, retry, log[base..], escaped, result, Some(after))
    ensures !escaped && result.Ok? ==> EndsWith(log, base, after, call, result)
    ensures options.mode.Single? && |ws| == 1 ==> AllSingle(log, base)
  {
    var es := log[base..];
    assert es[|es| - 1] == log[|log| - 1];
    forall k | base <= k < |log|
      ensures log[k] == es[k - base]
    {
    }
  }

  lemma {:induction false} Watched(
    options: RequestParameters, call: Call, ws: seq<nat>, retry: bool, before: seq<Entry>, log: seq<Entry>,
    escaped: bool, result: Result<Answer>, after: seq<nat>)
    requires before <= log && SendingLog(options, call, ws, retry, log[|before|..], escaped, result, Some(after))
    requires !escaped ==> Fits(call, result)
    ensures !escaped && result.Ok? ==> EndsWith(log, |before|, after, call, result)
    ensures options.mode.Single? && |ws| == 1 ==> AllSingle(log, |before|)
    ensures forall base: nat | base <= |before| && !call.UsesId() && !escaped ::
              Follow(log, base) == Holding(Follow(before, base), call, result, after)
  {
    SendingEnds(options, call, ws, retry, log, |before|, escaped, result, after);
    assert log == before + log[|before|..];
    forall base: nat | base <= |before| && !call.UsesId() && !escaped
      ensures Follow(log, base) == Holding(Follow(before, base), call, result, after)
    {
      SendingIsWatched(options, call, ws, retry, before, log[|before|..], result, after, base);
    }
  }

  method SendRequestFunction(
    cluster: Cluster, options: RequestParameters, call: Call, session: Session?, retryArchival: bool)
    returns (escaped: bool, result: Result<Answer>, newSession: Session?)
    requires cluster.Valid() && (session != null ==> UsableSession(cluster, session))
    modifies cluster, session
    ensures cluster.Valid() && old(cluster.log) <= cluster.log
    ensures RequestLog(options, call, old(Workers(session)), retryArchival, cluster.log[|old(cluster.log)|..],
                       escaped, result, Workers(newSession))
    ensures newSession != null ==> UsableSession(cluster, newSession)
    ensures if session != null then newSession == session else newSession == null || fresh(newSession)
    ensures options.mode.Single? ==> !escaped
    ensures !escaped ==> Fits(call, result)
    ensures !escaped && result.Ok? ==>
              && newSession != null
              && EndsWith(cluster.log, |old(cluster.log)|, newSession.activeWorkers, call, result)
    // one worker stays one worker, whose table alone can change
    ensures options.mode.Single? && OneWorker(old(Workers(session))) ==>
              && OneWorker(Workers(newSession))
              && AllSingle(cluster.log, |old(cluster.log)|)
              && (newSession == null ==> cluster.tables == old(cluster.tables))
              && (newSession != null ==>
                    && cluster.tables == ApplyOne(old(cluster.tables), newSession.activeWorkers[0], call, result)
                    && (call.Load? && result.Ok? ==>
                          result.value.id !in old(cluster.tables)[newSession.activeWorkers[0]]))
    // what a watcher of the log sees
    ensures forall base: nat | base <= |old(cluster.log)| && !call.UsesId() && !escaped ::
              Follow(cluster.log, base)
              == if newSession == null then Follow(old(cluster.log), base)
                 else Holding(Follow(old(cluster.log), base), call, result, newSession.activeWorkers)
  {
    ghost var start := cluster.log;
    if session != null {
      newSession := session;
      ghost var ws := session.activeWorkers;
      escaped, result := SendThroughSession(cluster, options, call, newSession, retryArchival);
      Watched(options, call, ws, retryArchival, start, cluster.log, escaped, result, newSession.activeWorkers);
      return;
    }
    var acquired := cluster.GetSessionFor(options, null);
    if acquired.Escaped? {
      return true, Err(NO_WORKERS), null;
    }
    if acquired.Unavailable? {
      return false, Err(acquired.error), null;
    }
    newSession := acquired.session;
    ghost var middle, ws := cluster.log, newSession.activeWorkers;
    escaped, result := SendThroughSession(cluster, options, call, newSession, retryArchival);
    assert cluster.log[|start|..][1..] == cluster.log[|middle|..];
    Watched(options, call, ws, retryArchival, middle, cluster.log, escaped, result, newSession.activeWorkers);
  }

  ghost predicate OneWorker(workers: Option<seq<nat>>) {
    workers.Some? ==> |workers.value| == 1
  }

  /** Every sending from entry `base` on went to one worker. */
  ghost predicate AllSingle(log: seq<Entry>, base: nat) {
    forall k | base <= k < |log| && log[k].Sent? :: |log[k].workers| == 1
  }

  // ----- What a request's log says -----

  function SendCount(es: seq<Entry>): nat {
    if es == [] then 0 else SendCount(es[1..]) + if es[0].Sent? then 1 else 0
  }

  ghost predicate SucceedsAt(es: seq<Entry>, k: int) {
    0 <= k < |es| && es[k].Sent? && es[k].Wf() && es[k].Delivered().Ok?
  }

  ghost predicate AllArchival(flags: seq<WorkerInfo>, workers: seq<nat>) {
    forall w | w in workers :: w < |flags| && flags[w].isAlive && flags[w].isArchival
  }

  /** A sending with an earlier sending before it. */
  predicate IsSecondSend(es: seq<Entry>, k: int) {
    0 <= k < |es| && es[k].Sent? && exists j :: 0 <= j < k && es[j].Sent?
  }

  /** Where the sendings are in the log of a request with retry: `n` entries in
      all, after an opening selection if the request came without a session. */
  lemma {:induction false} RequestLogShape(
    options: RequestParameters, call: Call, before: Option<seq<nat>>, es: seq<Entry>,
    result: Result<Answer>, after: Option<seq<nat>>)
    requires RequestLog(options, call, before, true, es, false, result, after)
    ensures before.None? ==> es != [] && es[0].Chosen? && (|es| == 1 ==> result.Err? && after == None)
    ensures var o := if before.None? then 1 else 0;
            (before.None? && |es| == 1) ||
            (&& o < |es| <= o + 3 && es[o].Sent? && es[o].Wf() && es[o].call == call
             && (before.Some? ==> es[o].workers == before.value)
             && (|es| < o + 3 ==> after == Some(es[o].workers))
             && (|es| >= o + 2 ==> es[o + 1].Chosen? && es[o].Delivered().Err?)
             && (|es| == o + 2 ==> result.Err?)
             && (|es| == o + 3 ==>
                   && es[o + 2].Sent? && es[o + 2].Wf() && es[o + 2].call == call
                   && after == Some(es[o + 2].workers) && es[o + 1].selection == Selected(es[o + 2].workers)
                   && AllArchival(es[o + 1].flags, es[o + 2].workers))
             && (result.Ok? <==> es[|es| - 1].Sent? && es[|es| - 1].Delivered().Ok?))
  {
    var o := if before.None? then 1 else 0;
    if before.Some? || |es| > 1 {
      var ws := if before.Some? then before.value else es[0].selection.workers;
      SendingLogShape(options, call, ws, es[o..], result, after);
    }
  }

  /** The archival retry contract, first part: a request with retry makes at
      most two sendings, of the same call, and is Ok exactly when one of them
      is answered Ok. */
  lemma {:induction false} RetrySendsAtMostTwice(
    options: RequestParameters, call: Call, before: Option<seq<nat>>, es: seq<Entry>,
    result: Result<Answer>, after: Option<seq<nat>>)
    requires RequestLog(options, call, before, true, es, false, result, after)
    ensures SendCount(es) <= 2 && forall k | 0 <= k < |es| && es[k].Sent? :: es[k].call == call
    ensures result.Ok? <==> exists k :: SucceedsAt(es, k)
  {
    RequestLogShape(options, call, before, es, result, after);
    if before.Some? {
      SendingLogShape(options, call, before.value, es, result, after);
    } else if |es| > 1 {
      SendingLogShape(options, call, es[0].selection.workers, es[1..], result, after);
    } else {
      assert es[1..] == [];
    }
    if result.Ok? {
      assert SucceedsAt(es, |es| - 1);
    }
  }

  /** After a failed sending a selection found somebody. */
  ghost predicate FindsArchival(es: seq<Entry>, c: int) {
    && 0 < c < |es| && es[c - 1].Sent? && !SucceedsAt(es, c - 1)
    && es[c].Chosen? && es[c].selection.Selected? && es[c].selection.workers != []
  }

  lemma {:induction false} SelectedMeansSent(
    options: RequestParameters, call: Call, before: Option<seq<nat>>, es: seq<Entry>,
    result: Result<Answer>, after: Option<seq<nat>>, c: int)
    requires RequestLog(options, call, before, true, es, false, result, after) && FindsArchival(es, c)
    ensures |es| == (if before.None? then 4 else 3)
  {
    RequestLogShape(options, call, before, es, result, after);
    if before.None? {
      assert es[1..][1] == es[2];
    }
  }

  /** Second part: a second sending follows a failed one and goes only to
      workers that were alive and archival when they were selected for it. */
  lemma {:induction false} SecondSendIsArchival(
    options: RequestParameters, call: Call, before: Option<seq<nat>>, es: seq<Entry>,
    result: Result<Answer>, after: Option<seq<nat>>)
    requires RequestLog(options, call, before, true, es, false, result, after)
    ensures (exists k :: IsSecondSend(es, k)) <==> exists c :: FindsArchival(es, c)
    ensures forall k | IsSecondSend(es, k) ::
              && k >= 2 && es[k - 1].Chosen? && es[k - 1].selection == Selected(es[k].workers)
              && es[k - 2].Sent? && !SucceedsAt(es, k - 2)
              && AllArchival(es[k - 1].flags, es[k].workers)
  {
    RequestLogShape(options, call, before, es, result, after);
    var o := if before.None? then 1 else 0;
    if |es| == o + 3 {
      assert IsSecondSend(es, o + 2) && FindsArchival(es, o + 1);
    }
    if c :| FindsArchival(es, c) {
      SelectedMeansSent(options, call, before, es, result, after, c);
    }
  }

  /** Third part: the session is left with the workers of the last sending;
      when the archival selection finds nobody, with the workers it had. */
  lemma {:induction false} SessionHasLastSendsWorkers(
    options: RequestParameters, call: Call, before: Option<seq<nat>>, es: seq<Entry>,
    result: Result<Answer>, after: Option<seq<nat>>)
    requires RequestLog(options, call, before, true, es, false, result, after)
    ensures after.Some? ==> exists k :: 0 <= k < |es| && es[k].Sent? && es[k].workers == after.value
                                        && forall j | k < j < |es| :: !es[j].Sent?
    ensures before.Some? && (forall k :: !IsSecondSend(es, k)) ==> after == before
  {
    RequestLogShape(options, call, before, es, result, after);
    var o := if before.None? then 1 else 0;
    if |es| == o + 3 {
      assert IsSecondSend(es, o + 2);
    }
  }

  /** Which error a failed request gives: that of its last sending, but that of
      the first one when that of the second has code -3; and "no workers
      available" when a selection found nobody. */
  lemma {:induction false} FailureIsOf(
    options: RequestParameters, call: Call, before: Option<seq<nat>>, es: seq<Entry>,
    result: Result<Answer>, after: Option<seq<nat>>)
    requires RequestLog(options, call, before, true, es, false, result, after) && result.Err?
    ensures var n := |es|;
            && n > 0
            && if es[n - 1].Chosen? then result == Err(Error(-3, "no workers available"))
               else
                 && n >= 3 && es[n - 1].Wf() && es[n - 3].Sent? && es[n - 3].Wf() && es[n - 1].Delivered().Err?
                 && result == if es[n - 1].Delivered().error.code == -3 then es[n - 3].Delivered()
                              else es[n - 1].Delivered()
  {
    if before.None? && after.Some? {
      var rest := es[1..];
      assert es[|es| - 1] == rest[|rest| - 1] && (|rest| >= 3 ==> es[|es| - 3] == rest[|rest| - 3]);
    }
  }

  lemma {:induction false} SendingLogShape(
    options: RequestParameters, call: Call, ws: seq<nat>, es: seq<Entry>,
    result: Result<Answer>, after: Option<seq<nat>>)
    requires SendingLog(options, call, ws, true, es, false, result, after)
    ensures 1 <= |es| <= 3 && es[0].Sent? && es[0].Wf() && es[0].call == call && es[0].workers == ws
    ensures SendCount(es) == if |es| == 3 then 2 else 1
    ensures |es| < 3 ==> after == Some(ws)
    ensures |es| >= 2 ==> es[1].Chosen? && es[0].Delivered().Err?
    ensures |es| == 2 ==> result.Err?
    ensures |es| == 3 ==>
              && es[2].Sent? && es[2].Wf() && es[2].call == call && after == Some(es[2].workers)
              && es[1].selection == Selected(es[2].workers)
              && AllArchival(es[1].flags, es[2].workers)
    ensures result.Ok? <==> es[|es| - 1].Sent? && es[|es| - 1].Delivered().Ok?
  {
    var t1 := es[1..];
    if |es| == 1 {
      assert SendCount(t1) == 0;
    } else {
      var t2 := t1[1..];
      assert t1[0] == es[1] && SendCount(t1) == SendCount(t2);
      if |es| == 2 {
        assert SendCount(t2) == 0;
      } else {
        var t3 := t2[1..];
        assert t2[0] == es[2] && SendCount(t3) == 0 && SendCount(t2) == 1;
      }
    }
  }

  /** Without retry there is one sending, and its answer is the result. */
  lemma {:induction false} SingleSendContract(
    options: RequestParameters, call: Call, before: Option<seq<nat>>, es: seq<Entry>,
    result: Result<Answer>, after: Option<seq<nat>>)
    requires RequestLog(options, call, before, false, es, false, result, after)
    ensures SendCount(es) <= 1
    ensures SendCount(es) == 1 <==> after.Some?
    ensures before.Some? ==> after == before && |es| == 1
    ensures result.Ok? <==> exists k :: SucceedsAt(es, k)
  {
    var rest := if before.Some? then es else es[1..];
    assert before.None? ==> es == [es[0]] + rest;
    if rest == [] {
      assert es == [es[0]];
    } else {
      assert rest[1..] == [] && SendCount(rest) == 1;
      assert SucceedsAt(es, |es| - 1) <==> rest[0].Delivered().Ok?;
    }
  }
}
