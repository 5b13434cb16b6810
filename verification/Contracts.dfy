/** Get-methods and token checks of the HTTP worker: `loadContract`,
    `forgetContract`, `runGetMethod` and the four `check*` functions
    (ton-http-api/tonlib_worker.cpp).

    All of them pass one session from call to call. The session is shared by
    reference, and a call that falls through to the archival retry rebinds it
    in place; a contract id means something only to the worker that issued it. */
module Contracts {
  import opened ContractIds
  import opened Results
  import opened WorkerPool
  import opened SendRequest

  /** What a token's get-method says about it; `parent` is the jetton master or
      the collection, "" when there is none. */
  datatype Fields = Fields(parent: string, owner: string, index: string, text: string)

  /** `validated` is None when the code leaves the flag unwritten. */
  datatype Token = Token(address: string, fields: Fields, validated: Option<bool>, content: string)

  /** A token without a parent has its own content; with one, it has none
      until the parent gives it. */
  function OwnContent(fields: Fields): string {
    if fields.parent == "" then fields.text else ""
  }

  predicate Unverified(token: Token) {
    token.validated.None? && token.content == if token.fields.parent == "" then token.fields.text else ""
  }

  datatype MethodRun = MethodRun(exitCode: int, stack: Stack, state: string)

  /** Parsing and serialisation done by other libraries: pure functions that may fail. */
  datatype Foreign = Foreign(
    parseStack: Stack -> Result<Stack>,
    decode: (string, Stack) -> Result<Fields>,
    ownerCell: string -> Result<string>,
    addressOf: Stack -> Result<string>,
    sameAddress: (string, string) -> Result<bool>,
    contentOf: Stack -> Result<string>)

  // ----- What holds of a log and of the tables -----

  /** Every forget from entry `base` on was answered Ok, so none was retried. */
  ghost predicate ForgetsSucceed(log: seq<Entry>, base: nat) {
    forall k | base <= k < |log| && log[k].Sent? && log[k].call.Forget? :: log[k].Wf() && log[k].Delivered().Ok?
  }

  /** At `i` block number `n` was looked up, and `name` is the block it was answered with. */
  ghost predicate FoundAt(log: seq<Entry>, base: nat, i: int, n: nat, name: string) {
    && base <= i < |log| && log[i].Sent? && log[i].call == LookupBlock(n)
    && log[i].Wf() && log[i].Delivered() == Ok(Block(name))
  }

  /** At `j` a contract was loaded for `address`: the latest state when no seqno
      is given, and else at the block that its own earlier lookup was answered with. */
  ghost predicate LoadsFor(log: seq<Entry>, base: nat, j: int, address: string, seqno: Option<nat>) {
    && base <= j < |log| && log[j].Sent?
    && (seqno.None? ==> log[j].call == Load(address, None))
    && (seqno.Some? ==>
          exists i, name :: i < j && FoundAt(log, base, i, seqno.value, name)
                            && log[j].call == Load(address, Some(name)))
  }

  lemma {:induction false} LoadsForGrows(
    log: seq<Entry>, longer: seq<Entry>, late: nat, base: nat, j: int, address: string, seqno: Option<nat>)
    requires log <= longer && base <= late && LoadsFor(log, late, j, address, seqno)
    ensures LoadsFor(longer, base, j, address, seqno)
  {
    if seqno.Some? {
      var i, name :| i < j && FoundAt(log, late, i, seqno.value, name) && log[j].call == Load(address, Some(name));
      assert FoundAt(longer, base, i, seqno.value, name);
    }
  }

  /** At `j` a contract was loaded for `address` as of `seqno`, and at `k` its
      get-method was run on the same workers, under the id they returned, with `answer`. */
  ghost predicate RanWith(
    log: seq<Entry>, base: nat, j: int, k: int, address: string, seqno: Option<nat>,
    method_: string, args: Stack, answer: Answer)
  {
    && LoadsFor(log, base, j, address, seqno) && j < k < |log|
    && log[j].Wf() && log[j].Delivered().Ok? && log[j].Delivered().value.Loaded?
    && log[k].Sent? && log[k].Wf() && log[k].workers == log[j].workers
    && log[k].call == RunMethod(log[j].Delivered().value.id, method_, args)
    && log[k].Delivered() == Ok(answer)
  }

  /** At `m` the state of the contract loaded at `j` was asked of the same workers. */
  ghost predicate StateShown(log: seq<Entry>, base: nat, j: int, m: int, text: string) {
    && base <= j < m < |log| && log[j].Sent? && log[j].Wf()
    && log[j].Delivered().Ok? && log[j].Delivered().value.Loaded?
    && IsSending(log[m], log[j].workers, GetState(log[j].Delivered().value.id))
    && log[m].Delivered() == Ok(AccountState(text))
  }

  ghost predicate RanOn(
    log: seq<Entry>, base: nat, j: int, k: int, address: string, seqno: Option<nat>,
    method_: string, args: Stack, stack: Stack)
  {
    RanWith(log, base, j, k, address, seqno, method_, args, MethodResult(0, stack))
  }

  lemma {:induction false} RanOnGrows(
    log: seq<Entry>, longer: seq<Entry>, late: nat, base: nat, j: int, k: int, address: string, seqno: Option<nat>,
    method_: string, args: Stack, stack: Stack)
    requires log <= longer && base <= late && RanOn(log, late, j, k, address, seqno, method_, args, stack)
    ensures RanOn(longer, base, j, k, address, seqno, method_, args, stack)
  {
    LoadsForGrows(log, longer, late, base, j, address, seqno);
  }

  /** The parent contract, asked with `args`, answered with the token's own address. */
  ghost predicate Vouched(
    log: seq<Entry>, base: nat, foreign: Foreign, parent: string, seqno: Option<nat>,
    method_: string, args: Stack, address: string)
  {
    exists j, k, stack ::
      RanOn(log, base, j, k, parent, seqno, method_, args, stack) && NamesAddress(foreign, stack, address)
  }

  /** At `j` a contract was loaded for `address` as of `seqno` through `workers`, as `id`. */
  ghost predicate LoadedAt(
    log: seq<Entry>, base: nat, j: int, address: string, seqno: Option<nat>, id: int, workers: seq<nat>)
  {
    && LoadsFor(log, base, j, address, seqno)
    && log[j].Wf() && log[j].Delivered() == Ok(Loaded(id)) && log[j].workers == workers
  }

  ghost predicate Holds(
    log: seq<Entry>, base: nat, address: string, seqno: Option<nat>, id: int, workers: seq<nat>)
  {
    exists j :: LoadedAt(log, base, j, address, seqno, id, workers)
  }

  /** The content call of an item: the collection gets the index and the item's own text. */
  function ContentCall(id: int, token: Token): Call {
    RunMethod(id, "get_nft_content", [token.fields.index, token.fields.text])
  }

  ghost predicate ShownAt(log: seq<Entry>, k: int, id: int, workers: seq<nat>, token: Token, stack: Stack) {
    && 0 <= k < |log| && IsSending(log[k], workers, ContentCall(id, token))
    && log[k].Delivered() == Ok(MethodResult(0, stack))
  }

  /** The content is what the item's collection, loaded here, answered for this item. */
  ghost predicate ContentFrom(
    log: seq<Entry>, base: nat, foreign: Foreign, token: Token, seqno: Option<nat>, content: string)
  {
    exists j, k, stack ::
      && RanOn(log, base, j, k, token.fields.parent, seqno, "get_nft_content",
               [token.fields.index, token.fields.text], stack)
      && foreign.contentOf(stack) == Ok(content)
  }

  lemma {:induction false} ContentShown(
    log1: seq<Entry>, log: seq<Entry>, base: nat, foreign: Foreign, token: Token, seqno: Option<nat>,
    id: int, workers: seq<nat>, k: int, stack: Stack)
    requires log1 <= log && |log1| <= k && Holds(log1, base, token.fields.parent, seqno, id, workers)
    requires ShownAt(log, k, id, workers, token, stack) && foreign.contentOf(stack).Ok?
    ensures ContentFrom(log, base, foreign, token, seqno, foreign.contentOf(stack).value)
  {
    var j :| LoadedAt(log1, base, j, token.fields.parent, seqno, id, workers);
    LoadsForGrows(log1, log, base, base, j, token.fields.parent, seqno);
    var args := [token.fields.index, token.fields.text];
    assert RanOn(log, base, j, k, token.fields.parent, seqno, "get_nft_content", args, stack);
  }

  lemma {:induction false} ContentGrows(
    log: seq<Entry>, longer: seq<Entry>, late: nat, base: nat, foreign: Foreign, token: Token, seqno: Option<nat>,
    content: string)
    requires log <= longer && base <= late && ContentFrom(log, late, foreign, token, seqno, content)
    ensures ContentFrom(longer, base, foreign, token, seqno, content)
  {
    var args := [token.fields.index, token.fields.text];
    var j, k, stack :|
      && RanOn(log, late, j, k, token.fields.parent, seqno, "get_nft_content", args, stack)
      && foreign.contentOf(stack) == Ok(content);
    RanOnGrows(log, longer, late, base, j, k, token.fields.parent, seqno, "get_nft_content", args, stack);
  }

  // ----- Why a call gives no data -----

  /** A selection that found nobody, or a sending that failed, gives `error`. */
  ghost predicate Fails(e: Entry, error: Error) {
    match e
    case Chosen(_, _, selection) =>
      && selection == Selected([])
      && (error == Error(-3, "no workers available")
          || error == Error(533, "Failed to get session: no workers available"))
    case Sent(_, _, _, _) => e.Wf() && e.Delivered() == Err(error)
  }

  ghost predicate FailedAt(log: seq<Entry>, base: nat, k: int, error: Error) {
    base <= k < |log| && Fails(log[k], error)
  }

  lemma {:induction false} HaltsIsFailed(log: seq<Entry>, late: nat, base: nat, error: Error)
    requires base <= late && Halts(log, late, error)
    ensures exists k :: FailedAt(log, base, k, error)
  {
    var k :| HaltsAt(log, late, k, error);
    assert FailedAt(log, base, k, error);
  }

  /** Entry `k` fails with `error`, and it is no run of a get-method. */
  ghost predicate HaltsAt(log: seq<Entry>, base: nat, k: int, error: Error) {
    base <= k < |log| && Fails(log[k], error) && (log[k].Sent? ==> !log[k].call.RunMethod?)
  }

  ghost predicate Halts(log: seq<Entry>, base: nat, error: Error) {
    exists k :: HaltsAt(log, base, k, error)
  }

  lemma {:induction false} HaltsLater(log: seq<Entry>, late: nat, base: nat, error: Error)
    requires base <= late && Halts(log, late, error)
    ensures Halts(log, base, error)
  {
    var k :| HaltsAt(log, late, k, error);
    assert HaltsAt(log, base, k, error);
  }

  lemma {:induction false} FailedRequestHalts(log: seq<Entry>, late: nat, base: nat, call: Call, error: Error)
    requires base <= late && FailsIn(log, late, call, error) && !call.RunMethod?
    ensures Halts(log, base, error)
  {
    var k :| FailsAt(log, late, k, call, error);
    assert HaltsAt(log, base, k, error);
  }

  /** What a get-method answered cannot be used: the token's own answer `own` is
      unreadable or names an owner that is, the collection's content is
      unreadable, or the parent's address is, or is not that of the token. */
  ghost predicate Unusable(
    foreign: Foreign, own: string, address: string, method_: string, stack: Stack, error: Error)
  {
    if method_ == own then
      || foreign.decode(own, stack) == Err(error)
      || (foreign.decode(own, stack).Ok?
          && foreign.ownerCell(foreign.decode(own, stack).value.owner) == Err(error))
    else if method_ == "get_nft_content" then foreign.contentOf(stack) == Err(error)
    else
      || foreign.addressOf(stack) == Err(error)
      || (foreign.addressOf(stack).Ok?
          && var same := foreign.sameAddress(foreign.addressOf(stack).value, address);
             same == Err(error) || (same == Ok(false) && error.code == 409))
  }

  /** Entry `k` is why a check of a token with get-method `own` ends with
      `error`. A failed run of `own` itself is no such reason. */
  ghost predicate Blamed(
    log: seq<Entry>, base: nat, k: int, foreign: Foreign, own: string, address: string, error: Error)
  {
    && base <= k < |log|
    && if log[k].Sent? && log[k].call.RunMethod? then
         && log[k].Wf()
         && match log[k].Delivered()
            case Err(failure) => failure == error && log[k].call.method_ != own
            case Ok(answer) =>
              && answer.MethodResult? && answer.exitCode == 0
              && Unusable(foreign, own, address, log[k].call.method_, answer.stack, error)
       else Fails(log[k], error)
  }

  /** At `k` a get-method gave nothing to read: `own` failed, or a run ended
      with a non-zero exit code. */
  ghost predicate NoAnswer(log: seq<Entry>, base: nat, k: int, own: string) {
    && base <= k < |log| && log[k].Sent? && log[k].call.RunMethod? && log[k].Wf()
    && match log[k].Delivered()
       case Err(_) => log[k].call.method_ == own
       case Ok(answer) => answer.MethodResult? && answer.exitCode != 0
  }

  /** An error or a missing token has its reason in the log from entry `base` on. */
  ghost predicate Accounted<T>(
    log: seq<Entry>, base: nat, foreign: Foreign, own: string, address: string, result: Result<Option<T>>)
  {
    match result
    case Err(error) => exists k :: Blamed(log, base, k, foreign, own, address, error)
    case Ok(value) => value.None? ==> exists k :: NoAnswer(log, base, k, own)
  }

  lemma {:induction false} HaltsIsAccounted<T>(
    log: seq<Entry>, late: nat, base: nat, foreign: Foreign, own: string, address: string, result: Result<Option<T>>)
    requires base <= late && result.Err? && Halts(log, late, result.error)
    ensures Accounted(log, base, foreign, own, address, result)
  {
    var k :| HaltsAt(log, late, k, result.error);
    assert Blamed(log, base, k, foreign, own, address, result.error);
  }

  lemma {:induction false} AccountedGrows<T>(
    log: seq<Entry>, longer: seq<Entry>, late: nat, base: nat, foreign: Foreign, own: string, address: string,
    result: Result<Option<T>>)
    requires log <= longer && base <= late && Accounted(log, late, foreign, own, address, result)
    ensures Accounted(longer, base, foreign, own, address, result)
  {
    if result.Err? {
      var k :| Blamed(log, late, k, foreign, own, address, result.error);
      assert Blamed(longer, base, k, foreign, own, address, result.error);
    } else if result.value.None? {
      var k :| NoAnswer(log, late, k, own);
      assert NoAnswer(longer, base, k, own);
    }
  }

  /** The first entry is a selection of one worker of the kind the caller asked for. */
  ghost predicate OpenedFor(log: seq<Entry>, base: nat, archival: Option<bool>) {
    && base < |log| && log[base].Chosen? && log[base].options == RequestParameters(Single, None, None, archival)
    && Honours(log[base].flags, log[base].options, log[base].selection)
  }

  ghost predicate NamesAddress(foreign: Foreign, stack: Stack, address: string) {
    foreign.addressOf(stack).Ok? && foreign.sameAddress(foreign.addressOf(stack).value, address) == Ok(true)
  }

  ghost predicate Usable(cluster: Cluster, session: Session?)
    reads cluster, session
  {
    cluster.Valid() && (session != null ==> UsableSession(cluster, session))
  }

  /** The session a function returns: the one it was given, or a new one. */
  twostate predicate Threads(session: Session?, new newSession: Session?) {
    if session != null then newSession == session else newSession == null || fresh(newSession)
  }

  /** One call that names a contract id, through the session that holds it; it is not retried. */
  method Ask(cluster: Cluster, archival: Option<bool>, call: Call, session: Session, ghost base: nat)
    returns (result: Result<Answer>)
    requires Usable(cluster, session) && call.UsesId() && base <= |cluster.log|
    modifies cluster, session
    ensures Usable(cluster, session) && session.activeWorkers == old(session.activeWorkers)
    ensures |cluster.log| == |old(cluster.log)| + 1 && old(cluster.log) <= cluster.log
    ensures var e := cluster.log[|old(cluster.log)|];
            && IsSending(e, session.activeWorkers, call) && e.Delivered() == result
            && Follow(cluster.log, base) == WatchStep(Follow(old(cluster.log), base), e)
    ensures Fits(call, result)
    ensures |session.activeWorkers| == 1 ==>
              cluster.tables == old(cluster.tables) && AllSingle(cluster.log, |old(cluster.log)|)
  {
    ghost var before := cluster.log;
    var escaped, answer, s := SendRequestFunction(cluster, SingleMode(archival), call, session, false);
    result := answer;
    ghost var es := cluster.log[|before|..];
    assert cluster.log == before + es && es == [es[0]];
    assert cluster.log[..|cluster.log| - 1] == before;
  }

  /** One request that names no loaded contract, through one worker. */
  method Request(
    cluster: Cluster, archival: Option<bool>, call: Call, session: Session?, retry: bool, ghost base: nat)
    returns (result: Result<Answer>, newSession: Session?)
    requires Usable(cluster, session) && !call.UsesId() && base <= |cluster.log|
    modifies cluster, session
    ensures Usable(cluster, newSession) && Threads(session, newSession) && old(cluster.log) <= cluster.log
    ensures Fits(call, result) && OnlySends(cluster.log, |old(cluster.log)|, call)
    ensures result.Err? ==>
              && FailsIn(cluster.log, |old(cluster.log)|, call, result.error)
              && (retry ==> TriedTwice(cluster.log, |old(cluster.log)|, call))
    ensures result.Ok? ==>
              && newSession != null
              && EndsWith(cluster.log, |old(cluster.log)|, newSession.activeWorkers, call, result)
    ensures session != null && !retry ==> |cluster.log| == |old(cluster.log)| + 1
    ensures session == null ==> OpenedFor(cluster.log, |old(cluster.log)|, archival)
    ensures Follow(cluster.log, base)
         == if newSession == null then Follow(old(cluster.log), base)
            else Holding(Follow(old(cluster.log), base), call, result, newSession.activeWorkers)
    ensures OneWorker(old(Workers(session))) ==>
              && OneWorker(Workers(newSession)) && AllSingle(cluster.log, |old(cluster.log)|)
              && if newSession == null then cluster.tables == old(cluster.tables)
                 else AnsweredByOne(old(cluster.tables), cluster.tables, newSession.activeWorkers, call, result)
  {
    ghost var before, bound := cluster.log, Workers(session);
    var escaped, answer, s := SendRequestFunction(cluster, SingleMode(archival), call, session, retry);
    result, newSession := answer, s;
    RequestFails(SingleMode(archival), call, bound, retry, cluster.log, |before|, answer, Workers(s));
  }

  /** From entry `base` on, no contract is loaded before entry `end`. */
  ghost predicate LoadsOnlyLast(log: seq<Entry>, base: nat, end: int) {
    forall k | base <= k < |log| && k < end && log[k].Sent? :: !log[k].call.Load?
  }

  /** The first part of `loadContract`: a session, if the archival choice calls
      for one, and the block to load at, if a seqno is given. No id is named
      and no contract is loaded. */
  method FindBlock(
    cluster: Cluster, ghost address: string, seqno: Option<nat>, archival: Option<bool>, session: Session?,
    ghost base: nat)
    returns (result: Result<Option<string>>, newSession: Session?)
    requires Usable(cluster, session) && base <= |cluster.log|
    modifies cluster, session
    ensures Usable(cluster, newSession) && Threads(session, newSession) && old(cluster.log) <= cluster.log
    ensures result.Ok? ==> (result.value.Some? <==> seqno.Some?)
    ensures result.Ok? && seqno.Some? ==>
              exists i :: FoundAt(cluster.log, |old(cluster.log)|, i, seqno.value, result.value.value)
    ensures result.Err? ==> Halts(cluster.log, |old(cluster.log)|, result.error)
    ensures result.Err? ==>
              TriedTwice(cluster.log, |old(cluster.log)|,
                         if seqno.Some? then LookupBlock(seqno.value) else Load(address, None))
    ensures session == null ==>
              if archival.Some? || seqno.Some? then OpenedFor(cluster.log, |old(cluster.log)|, archival)
              else newSession == null && cluster.log == old(cluster.log)
    ensures result.Ok? && seqno.Some? ==> newSession != null
    ensures LoadsOnlyLast(cluster.log, |old(cluster.log)|, |cluster.log|)
    ensures Follow(cluster.log, base) == Follow(old(cluster.log), base)
    ensures OneWorker(old(Workers(session))) ==>
              && OneWorker(Workers(newSession)) && AllSingle(cluster.log, |old(cluster.log)|)
              && cluster.tables == old(cluster.tables)
  {
    newSession := session;
    if newSession == null && archival.Some? {
      var acquired := cluster.GetSessionFor(SingleMode(archival), null);
      if !acquired.Bound? {
        assert HaltsAt(cluster.log, |old(cluster.log)|, |old(cluster.log)|,
                       Error(533, "Failed to get session: no workers available"));
        return Err(Error(533, "Failed to get session: no workers available")), null;
      }
      newSession := acquired.session;
    }
    if seqno.None? {
      return Ok(None), newSession;
    }
    ghost var middle := cluster.log;
    var found, s := Request(cluster, None, LookupBlock(seqno.value), newSession, true, base);
    newSession := s;
    result := if found.Err? then Err(found.error) else Ok(Some(found.value.name));
    if found.Err? {
      FailedRequestHalts(cluster.log, |middle|, |old(cluster.log)|, LookupBlock(seqno.value), found.error);
    } else {
      assert FoundAt(cluster.log, |old(cluster.log)|, |cluster.log| - 1, seqno.value, found.value.name);
    }
  }

  method LoadContract(
    cluster: Cluster, address: string, seqno: Option<nat>, archival: Option<bool>, session: Session?, ghost base: nat)
    returns (result: Result<int>, newSession: Session?)
    requires Usable(cluster, session) && base <= |cluster.log|
    modifies cluster, session
    ensures Usable(cluster, newSession) && Threads(session, newSession) && old(cluster.log) <= cluster.log
    ensures result.Ok? ==>
              && newSession != null
              && LoadedAt(cluster.log, |old(cluster.log)|, |cluster.log| - 1, address, seqno, result.value,
                          newSession.activeWorkers)
    ensures result.Err? ==> Halts(cluster.log, |old(cluster.log)|, result.error)
    ensures session == null ==> OpenedFor(cluster.log, |old(cluster.log)|, archival)
    // a load at a block is sent once; its lookup, and a load of the latest state, are retried
    ensures seqno.Some? ==> LoadsOnlyLast(cluster.log, |old(cluster.log)|, |cluster.log| - 1)
    ensures seqno.None? && result.Err? ==> TriedTwice(cluster.log, |old(cluster.log)|, Load(address, None))
    ensures seqno.Some? && result.Err? ==>
              || TriedTwice(cluster.log, |old(cluster.log)|, LookupBlock(seqno.value))
              || (cluster.log[|cluster.log| - 1].Sent? && cluster.log[|cluster.log| - 1].call.Load?)
    ensures Follow(cluster.log, base)
         == if result.Ok? then
              Follow(old(cluster.log), base).(held := Some((result.value, newSession.activeWorkers)))
            else Follow(old(cluster.log), base)
    ensures OneWorker(old(Workers(session))) ==>
              && OneWorker(Workers(newSession)) && AllSingle(cluster.log, |old(cluster.log)|)
              && if result.Ok? then
                   var w := newSession.activeWorkers[0];
                   && result.value !in old(cluster.tables)[w]
                   && cluster.tables == old(cluster.tables)[w := old(cluster.tables)[w] + {result.value}]
                 else cluster.tables == old(cluster.tables)
  {
    var found, s1 := FindBlock(cluster, address, seqno, archival, session, base);
    newSession := s1;
    if found.Err? {
      return Err(found.error), newSession;
    }
    var block := found.value;
    ghost var looked := cluster.log;
    var call := Load(address, block);
    var answer, s2 := Request(cluster, archival, call, newSession, block.None?, base);
    newSession := s2;
    if answer.Err? {
      FailedRequestHalts(cluster.log, |looked|, |old(cluster.log)|, call, answer.error);
      return Err(answer.error), newSession;
    }
    result := Ok(answer.value.id);
    if seqno.Some? {
      ghost var i :| FoundAt(looked, |old(cluster.log)|, i, seqno.value, block.value);
      assert FoundAt(cluster.log, |old(cluster.log)|, i, seqno.value, block.value);
    }
    assert LoadsFor(cluster.log, |old(cluster.log)|, |cluster.log| - 1, address, seqno);
  }

  /** The tables after a forget of `id` that came out as `done`, at the one
      worker of the session that it ended with. */
  ghost predicate Forgot(before: Tables, after: Tables, workers: seq<nat>, id: int, done: bool) {
    && |workers| == 1 && workers[0] < |before|
    && after == if done then before[workers[0] := before[workers[0]] - {id}] else before
  }

  method ForgetContract(cluster: Cluster, id: int, archival: Option<bool>, session: Session, ghost base: nat)
    returns (result: Result<()>)
    requires Usable(cluster, session) && base <= |cluster.log|
    modifies cluster, session
    ensures Usable(cluster, session) && old(cluster.log) <= cluster.log
    ensures Follow(cluster.log, base) == Follow(old(cluster.log), base)
    ensures result.Err? ==>
              && Halts(cluster.log, |old(cluster.log)|, result.error)
              && TriedTwice(cluster.log, |old(cluster.log)|, Forget(id))
    ensures ForgetsSucceed(cluster.log, |old(cluster.log)|) ==>
              result.Ok? && session.activeWorkers == old(session.activeWorkers)
    ensures |old(session.activeWorkers)| == 1 ==>
              && AllSingle(cluster.log, |old(cluster.log)|)
              && Forgot(old(cluster.tables), cluster.tables, session.activeWorkers, id, result.Ok?)
  {
    ghost var before, bound := cluster.log, Workers(session);
    var escaped, answer, s := SendRequestFunction(cluster, SingleMode(archival), Forget(id), session, true);
    result := if answer.Err? then Err(answer.error) else Ok(());
    RequestFails(SingleMode(archival), Forget(id), bound, true, cluster.log, |before|, answer, Workers(s));
    if answer.Err? {
      FailedRequestHalts(cluster.log, |before|, |before|, Forget(id), answer.error);
    }
    ghost var es := cluster.log[|before|..];
    assert cluster.log == before + es && cluster.log[|before|] == es[0];
  }

  // ----- The functions that thread one session through several calls -----

  /** Contract-id affinity over entries `base` on: each call that names an id
      went to exactly the workers that the last load went to, and named the id
      that load returned; when the caller came with no session or with one
      worker in it, that is one worker, the one that issued the id. */
  ghost predicate Affine(log: seq<Entry>, base: nat, single: bool) {
    Follow(log, base).good && (single ==> AllSingle(log, base))
  }

  /** With no session or a one-worker session, also after a fall-through to the
      archival retry, every call that names an id went to the one worker that
      issued it. */
  lemma {:induction false} OneWorkerUsesReachOnlyTheIssuer(log: seq<Entry>, base: nat, k: nat)
    requires Affine(log, base, true) && base <= k < |log| && log[k].Sent? && log[k].call.UsesId()
    ensures exists j :: UseFollowsLoad(log, base, j, k) && log[k].workers == [Issuer(log[j])]
  {
    UsesReachTheIssuer(log, base, k);
    assert |log[k].workers| == 1;
  }

  /** Load/forget conservation for one contract: the tables are as before
      exactly when nothing was loaded, or what was loaded was forgotten and the
      session ended with the worker that issued the id. */
  ghost predicate GivenBack(done: bool, held: Option<(int, seq<nat>)>, workers: Option<seq<nat>>) {
    held.None? || (done && workers == Some(held.value.1))
  }

  lemma {:induction false} LoadThenForget(
    before: Tables, held: Tables, after: Tables, issuer: seq<nat>, workers: seq<nat>, id: int, done: bool)
    requires |issuer| == 1 && issuer[0] < |before| && id !in before[issuer[0]]
    requires held == before[issuer[0] := before[issuer[0]] + {id}] && Forgot(held, after, workers, id, done)
    ensures after == before <==> done && workers == issuer
  {
    ForgetElsewhereTakesAnothersId(before, issuer[0], workers[0], id);
  }

  /** What becomes of one contract through one worker: nothing is loaded, or an
      id that is new at its issuer, and forgotten if `done` where the session ends. */
  ghost predicate Handled(
    before: Tables, after: Tables, held: Option<(int, seq<nat>)>, workers: Option<seq<nat>>, done: bool)
  {
    match held
    case None => after == before
    case Some(h) =>
      && |h.1| == 1 && h.1[0] < |before| && h.0 !in before[h.1[0]] && workers.Some?
      && Forgot(before[h.1[0] := before[h.1[0]] + {h.0}], after, workers.value, h.0, done)
  }

  /** What is loaded and then forgotten, or not. */
  lemma {:induction false} HandledByForget(
    before: Tables, middle: Tables, after: Tables, held: Option<(int, seq<nat>)>, workers: Option<seq<nat>>,
    ending: seq<nat>, done: bool)
    requires held.Some? && Handled(before, middle, held, workers, false)
    requires Forgot(middle, after, ending, held.value.0, done)
    ensures Handled(before, after, held, Some(ending), done)
  {
  }

  lemma {:induction false} HandledIsGivenBack(
    before: Tables, after: Tables, held: Option<(int, seq<nat>)>, workers: Option<seq<nat>>, done: bool)
    requires Handled(before, after, held, workers, done)
    ensures after == before <==> GivenBack(done, held, workers)
  {
    if held.Some? {
      var (id, issuer) := held.value;
      LoadThenForget(before, before[issuer[0] := before[issuer[0]] + {id}], after, issuer, workers.value, id, done);
    }
  }

  lemma {:induction false} SucceedingForgetRestores(
    before: Tables, after: Tables, held: Option<(int, seq<nat>)>, ending: seq<nat>,
    log: seq<Entry>, start: nat, late: nat)
    requires held.Some? && Handled(before, after, held, Some(ending), true) && start <= late
    requires ForgetsSucceed(log, late) ==> ending == held.value.1
    ensures ForgetsSucceed(log, start) ==> after == before
  {
    HandledIsGivenBack(before, after, held, Some(ending), true);
    if ForgetsSucceed(log, start) {
      LaterForgetsSucceed(log, start, late);
    }
  }

  /** One contract of a check that handles one or two. */
  datatype Phase = Phase(held: Option<(int, seq<nat>)>, done: bool, workers: Option<seq<nat>>) {
    ghost predicate IsGivenBack() { GivenBack(done, held, workers) }
  }

  /** The phases as the log and the outcome show them: the first contract up to
      entry `mid`, the second one, if the check gets there, from then on. */
  ghost predicate ArePhases(
    log: seq<Entry>, base: nat, mid: nat, first: Phase, second: Option<Phase>, done: bool, workers: Option<seq<nat>>)
  {
    && base <= mid <= |log| && first.held == Follow(log[..mid], base).held
    && match second
       case None => mid == |log| && first.done == done && first.workers == workers
       case Some(p) => first.done && p == Phase(Follow(log, mid).held, done, workers)
  }

  /** No id that was held before is forgotten. */
  ghost predicate Untouched(tables: Tables, log: seq<Entry>, base: nat) {
    forall w: nat, id | w < |tables| && id in tables[w] :: !Taken(log, base, w, id)
  }

  lemma {:induction false} UntouchedIsKept(
    size: nat, before: seq<Entry>, log: seq<Entry>, longer: seq<Entry>, tablesBefore: Tables, tables: Tables)
    requires before <= log <= longer && Untouched(tablesBefore, longer, |before|)
    requires tables == Replay(NothingLoaded(size), log, 0) && tablesBefore == Replay(NothingLoaded(size), before, 0)
    ensures |tables| == |tablesBefore| && forall w | 0 <= w < |tables| :: tablesBefore[w] <= tables[w]
  {
    RestoredOverLog(size, before, log, tablesBefore, tables);
    ReplayKeepsSize(tablesBefore, log, |before|);
    forall w: nat, id | w < |tables| && id in tablesBefore[w]
      ensures id in tables[w]
    {
      HeldAfterReplay(tablesBefore, log, |before|, w, id);
      forall k | |before| <= k
        ensures !Takes(log, k, w, id)
      {
        assert Takes(log, k, w, id) ==> Takes(longer, k, w, id);
      }
    }
  }

  /** Two contracts one after the other: the tables are as before exactly when
      each was given back, as long as the first one took nothing held before. */
  lemma {:induction false} TwoPhases(before: Tables, middle: Tables, after: Tables, first: Phase, second: Phase)
    requires Handled(before, middle, first.held, first.workers, first.done)
    requires Handled(middle, after, second.held, second.workers, second.done)
    requires |middle| == |before| && forall w | 0 <= w < |before| :: before[w] <= middle[w]
    ensures after == before <==> first.IsGivenBack() && second.IsGivenBack()
  {
    HandledIsGivenBack(before, middle, first.held, first.workers, first.done);
    HandledIsGivenBack(middle, after, second.held, second.workers, second.done);
    if middle != before {
      LeftoverStays(before, middle, after, first, second);
    }
  }

  /** What a check that handles one or two contracts knows at its end; `log1`
      and `tables1` are the log and the tables after the first one. */
  ghost predicate PhaseFacts(
    before: seq<Entry>, log1: seq<Entry>, log: seq<Entry>, tables: Tables, tables1: Tables, tables2: Tables,
    first: Phase, second: Option<Phase>, single: bool, done: bool, workers: Option<seq<nat>>)
  {
    && before <= log1 <= log && FirstFacts(before, log1, tables, tables1, first, single)
    && match second
       case None => log == log1 && tables2 == tables1 && first.done == done && first.workers == workers
       case Some(p) =>
         first.done && p.done == done && p.workers == workers && FirstFacts(log1, log, tables1, tables2, p, single)
  }

  /** What is known of one contract, from the log `before` to the log `log`. */
  ghost predicate FirstFacts(
    before: seq<Entry>, log: seq<Entry>, tables: Tables, after: Tables, phase: Phase, single: bool)
  {
    && Affine(log, |before|, single) && phase.held == Follow(log, |before|).held
    && (single ==> Handled(tables, after, phase.held, phase.workers, phase.done))
    && (single && phase.done && ForgetsSucceed(log, |before|) ==> after == tables)
  }

  lemma {:induction false} PhasesAccount(
    size: nat, before: seq<Entry>, log1: seq<Entry>, log: seq<Entry>, tables: Tables, tables1: Tables,
    tables2: Tables, first: Phase, second: Option<Phase>, single: bool, done: bool, workers: Option<seq<nat>>)
    requires PhaseFacts(before, log1, log, tables, tables1, tables2, first, second, single, done, workers)
    requires tables == Replay(NothingLoaded(size), before, 0) && tables1 == Replay(NothingLoaded(size), log1, 0)
    requires tables2 == Replay(NothingLoaded(size), log, 0)
    ensures Affine(log, |before|, single) && (tables2 == tables <==> Balanced(tables, log, |before|))
    ensures single && done && ForgetsSucceed(log, |before|) ==> tables2 == tables
    ensures ArePhases(log, |before|, |log1|, first, second, done, workers)
    ensures single ==>
              if second.None? then tables2 == tables <==> first.IsGivenBack()
              else Untouched(tables, log, |before|) ==>
                     (tables2 == tables <==> first.IsGivenBack() && second.value.IsGivenBack())
  {
    RestoredOverLog(size, before, log, tables, tables2);
    assert log[..|log1|] == log1;
    if single {
      HandledIsGivenBack(tables, tables1, first.held, first.workers, first.done);
    }
    if second.Some? {
      FollowComposes(log1, log, |before|);
      if ForgetsSucceed(log, |before|) {
        PrefixOfGoodForgets(log1, log, |before|);
        LaterForgetsSucceed(log, |before|, |log1|);
      }
      if single && Untouched(tables, log, |before|) {
        UntouchedIsKept(size, before, log1, log, tables, tables1);
        TwoPhases(tables, tables1, tables2, first, second.value);
      }
    }
  }

  lemma {:induction false} LeftoverStays(before: Tables, middle: Tables, after: Tables, first: Phase, second: Phase)
    requires Handled(before, middle, first.held, first.workers, first.done) && middle != before
    requires Handled(middle, after, second.held, second.workers, second.done)
    requires |middle| == |before| && forall w | 0 <= w < |before| :: before[w] <= middle[w]
    ensures after != before
  {
    var (id, issuer) := first.held.value;
    var w := issuer[0];
    assert id in middle[w] && id !in before[w] by {
      HandledIsGivenBack(before, middle, first.held, first.workers, first.done);
      assert id in before[w := before[w] + {id}][w];
    }
    if second.held.Some? {
      var (id2, issuer2) := second.held.value;
      var v := issuer2[0];
      assert id2 !in before[v] && !(id2 == id && v == w);
      assert id in after[w] || id2 in after[v];
    }
  }

  /** Conservation over the log, for any run between two states of a cluster,
      with any sessions: the tables are as before exactly when the log is balanced. */
  lemma {:induction false} RestoredOverLog(
    size: nat, before: seq<Entry>, log: seq<Entry>, tablesBefore: Tables, tables: Tables)
    requires before <= log && tables == Replay(NothingLoaded(size), log, 0)
    requires tablesBefore == Replay(NothingLoaded(size), before, 0)
    ensures tables == Replay(tablesBefore, log, |before|)
    ensures tables == tablesBefore <==> Balanced(tablesBefore, log, |before|)
  {
    ReplayAppends(NothingLoaded(size), before, log, 0);
    RestoredExactlyWhenBalanced(tablesBefore, log, |before|);
  }

  /** From entry `base` on, at `k`, a call was answered Ok through `workers`. */
  ghost predicate AnsweredAt(log: seq<Entry>, base: nat, k: int, workers: seq<nat>, call: Call, answer: Answer) {
    base <= k < |log| && IsSending(log[k], workers, call) && log[k].Delivered() == Ok(answer)
  }

  /** The part of `runGetMethod` that has a contract loaded as `id`. */
  method RunLoaded(
    cluster: Cluster, foreign: Foreign, id: int, methodName: string, stack: Stack,
    archival: Option<bool>, session: Session, ghost base: nat)
    returns (result: Result<MethodRun>)
    requires Usable(cluster, session) && base <= |cluster.log|
    requires Follow(cluster.log, base) == Watch(true, Some((id, session.activeWorkers)))
    modifies cluster, session
    ensures Usable(cluster, session) && old(cluster.log) <= cluster.log
    ensures Follow(cluster.log, base) == Follow(old(cluster.log), base)
    ensures |old(session.activeWorkers)| == 1 ==>
              && AllSingle(cluster.log, |old(cluster.log)|)
              && Forgot(old(cluster.tables), cluster.tables, session.activeWorkers, id, result.Ok?)
    ensures result.Ok? && ForgetsSucceed(cluster.log, |old(cluster.log)|) ==>
              session.activeWorkers == old(session.activeWorkers)
    ensures result.Err? ==>
              || foreign.parseStack(stack) == Err(result.error)
              || exists k :: FailedAt(cluster.log, |old(cluster.log)|, k, result.error)
    ensures result.Ok? ==>
              && foreign.parseStack(stack).Ok?
              && exists k, m ::
                   && AnsweredAt(cluster.log, |old(cluster.log)|, k, old(session.activeWorkers),
                                 RunMethod(id, methodName, foreign.parseStack(stack).value),
                                 MethodResult(result.value.exitCode, result.value.stack))
                   && AnsweredAt(cluster.log, |old(cluster.log)|, m, old(session.activeWorkers),
                                 GetState(id), AccountState(result.value.state))
  {
    var parsed := foreign.parseStack(stack);
    if parsed.Err? {
      return Err(parsed.error);
    }
    ghost var k, workers := |cluster.log|, session.activeWorkers;
    var ran := Ask(cluster, archival, RunMethod(id, methodName, parsed.value), session, base);
    if ran.Err? {
      assert FailedAt(cluster.log, k, k, ran.error);
      return Err(ran.error);
    }
    var state := Ask(cluster, archival, GetState(id), session, base);
    if state.Err? {
      assert FailedAt(cluster.log, k, k + 1, state.error);
      return Err(state.error);
    }
    ghost var asked := cluster.log;
    var forgotten := ForgetContract(cluster, id, archival, session, base);
    if |workers| == 1 {
      AllSingleComposes(asked, cluster.log, k);
    }
    if forgotten.Err? {
      HaltsIsFailed(cluster.log, k + 2, k, forgotten.error);
      return Err(forgotten.error);
    }
    result := Ok(MethodRun(ran.value.exitCode, ran.value.stack, state.value.text));
    assert AnsweredAt(cluster.log, k, k, workers, RunMethod(id, methodName, parsed.value), ran.value);
    assert AnsweredAt(cluster.log, k, k + 1, workers, GetState(id), state.value);
    if ForgetsSucceed(cluster.log, k) {
      LaterForgetsSucceed(cluster.log, k, k + 2);
    }
  }

  lemma {:induction false} LaterForgetsSucceed(log: seq<Entry>, base: nat, late: nat)
    requires base <= late && ForgetsSucceed(log, base)
    ensures ForgetsSucceed(log, late)
  {
  }

  /** What was loaded before entry `late` was run and shown after it. */
  lemma {:induction false} LoadedAndRun(
    early: seq<Entry>, log: seq<Entry>, base: nat, address: string, seqno: Option<nat>, id: int, workers: seq<nat>,
    method_: string, args: Stack, answer: Answer, text: string)
    requires early <= log && Holds(early, base, address, seqno, id, workers)
    requires exists k, m :: AnsweredAt(log, |early|, k, workers, RunMethod(id, method_, args), answer)
                            && AnsweredAt(log, |early|, m, workers, GetState(id), AccountState(text))
    ensures exists j, k, m ::
              RanWith(log, base, j, k, address, seqno, method_, args, answer) && StateShown(log, base, j, m, text)
  {
    var j :| LoadedAt(early, base, j, address, seqno, id, workers);
    LoadsForGrows(early, log, base, base, j, address, seqno);
    var k, m :| AnsweredAt(log, |early|, k, workers, RunMethod(id, method_, args), answer)
                && AnsweredAt(log, |early|, m, workers, GetState(id), AccountState(text));
    assert RanWith(log, base, j, k, address, seqno, method_, args, answer);
    assert StateShown(log, base, j, m, text);
  }

  method RunGetMethod(
    cluster: Cluster, foreign: Foreign, address: string, methodName: string, stack: Stack,
    seqno: Option<nat>, archival: Option<bool>, session: Session?)
    returns (result: Result<MethodRun>, newSession: Session?)
    requires Usable(cluster, session)
    modifies cluster, session
    ensures Usable(cluster, newSession) && Threads(session, newSession) && old(cluster.log) <= cluster.log
    ensures Affine(cluster.log, |old(cluster.log)|, OneWorker(old(Workers(session))))
    // conservation: in general, for one worker, and for one worker with forgets that need no retry
    ensures cluster.tables == old(cluster.tables)
       <==> Balanced(old(cluster.tables), cluster.log, |old(cluster.log)|)
    ensures OneWorker(old(Workers(session))) ==>
              (cluster.tables == old(cluster.tables)
               <==> GivenBack(result.Ok?, Follow(cluster.log, |old(cluster.log)|).held, Workers(newSession)))
    ensures OneWorker(old(Workers(session))) && result.Ok? && ForgetsSucceed(cluster.log, |old(cluster.log)|) ==>
              cluster.tables == old(cluster.tables)
    ensures session == null ==> OpenedFor(cluster.log, |old(cluster.log)|, archival)
    ensures result.Err? ==>
              || foreign.parseStack(stack) == Err(result.error)
              || exists k :: FailedAt(cluster.log, |old(cluster.log)|, k, result.error)
    ensures result.Ok? ==>
              && foreign.parseStack(stack).Ok?
              && exists j, k, m ::
                   && RanWith(cluster.log, |old(cluster.log)|, j, k, address, seqno, methodName,
                              foreign.parseStack(stack).value, MethodResult(result.value.exitCode, result.value.stack))
                   && StateShown(cluster.log, |old(cluster.log)|, j, m, result.value.state)
  {
    ghost var before, tables, single := cluster.log, cluster.tables, OneWorker(Workers(session));
    ghost var base := |before|;
    var loaded, s := LoadContract(cluster, address, seqno, archival, session, base);
    newSession := s;
    if loaded.Err? {
      HaltsIsFailed(cluster.log, base, base, loaded.error);
      RestoredOverLog(cluster.size, before, cluster.log, tables, cluster.tables);
      return Err(loaded.error), newSession;
    }
    ghost var early, issuer, held := cluster.log, newSession.activeWorkers, cluster.tables;
    result := RunLoaded(cluster, foreign, loaded.value, methodName, stack, archival, newSession, base);
    RestoredOverLog(cluster.size, before, cluster.log, tables, cluster.tables);
    if single {
      LoadThenForget(tables, held, cluster.tables, issuer, newSession.activeWorkers, loaded.value, result.Ok?);
    }
    if result.Err? && foreign.parseStack(stack) != Err(result.error) {
      ghost var k :| FailedAt(cluster.log, |early|, k, result.error);
      assert FailedAt(cluster.log, base, k, result.error);
    }
    if result.Ok? {
      LoadedAndRun(early, cluster.log, base, address, seqno, loaded.value, issuer, methodName,
                   foreign.parseStack(stack).value, MethodResult(result.value.exitCode, result.value.stack),
                   result.value.state);
    }
    if ForgetsSucceed(cluster.log, base) {
      LaterForgetsSucceed(cluster.log, base, |early|);
    }
  }

  function OneAnswer(w: nat, call: Call, answer: Result<Answer>): Entry { Sent([w], call, [answer], 0) }

  lemma {:induction false} OneAnswerReplays(tables: Tables, log: seq<Entry>, w: nat, call: Call, answer: Result<Answer>)
    ensures Replay(tables, log + [OneAnswer(w, call, answer)], 0) == ApplyOne(Replay(tables, log, 0), w, call, answer)
  {
    ReplaySnoc(tables, log, OneAnswer(w, call, answer), 0);
    OneAnswerApplied(Replay(tables, log, 0), [w], call, [answer]);
  }

  /** The requests of `runGetMethod` up to its get-method call, which fails: the
      call ends with that error, and the contract stays loaded. */
  lemma {:induction false} FailedRunLeavesTheContract(
    tables: Tables, address: string, id: int, method_: string, args: Stack, error: Error)
    requires tables != [] && id !in tables[0]
    ensures var load, run := Load(address, None), RunMethod(id, method_, args);
            var log := [OneAnswer(0, load, Ok(Loaded(id))), OneAnswer(0, run, Err(error))];
            && RequestLog(SingleMode(None), load, Some([0]), true, log[..1], false, Ok(Loaded(id)), Some([0]))
            && RequestLog(SingleMode(None), run, Some([0]), false, log[1..], false, Err(error), Some([0]))
            && Replay(tables, log, 0) == tables[0 := tables[0] + {id}] != tables && !Balanced(tables, log, 0)
  {
    var load, run := Load(address, None), RunMethod(id, method_, args);
    var log := [OneAnswer(0, load, Ok(Loaded(id))), OneAnswer(0, run, Err(error))];
    OneAnswerReplays(tables, [], 0, load, Ok(Loaded(id)));
    OneAnswerReplays(tables, log[..1], 0, run, Err(error));
    assert [] + log[..1] == log[..1] && log[..1] + [OneAnswer(0, run, Err(error))] == log;
    ForgetElsewhereTakesAnothersId(tables, 0, 0, id);
    RestoredExactlyWhenBalanced(tables, log, 0);
  }

  /** All requests of a `runGetMethod` whose forget fails at the issuer, worker
      0, and is retried at the archival worker 1: the call is Ok, but the
      contract stays loaded at the issuer, and worker 1 has lost the contract
      that another caller may hold there under the same number. */
  lemma {:induction false} RetriedForgetMissesTheIssuer(
    tables: Tables, flags: seq<WorkerInfo>, address: string, id: int, method_: string, args: Stack,
    ran: Answer, text: string, error: Error)
    requires |tables| > 1 && id !in tables[0] && ran.MethodResult?
    requires |flags| > 1 && flags[1].isAlive && flags[1].isArchival
    ensures var load, run, forget := Load(address, None), RunMethod(id, method_, args), Forget(id);
            var log := ForgetRetried(load, run, id, ran, text, error, flags);
            && RequestLog(SingleMode(None), load, Some([0]), true, log[..1], false, Ok(Loaded(id)), Some([0]))
            && RequestLog(SingleMode(None), run, Some([0]), false, log[1..2], false, Ok(ran), Some([0]))
            && RequestLog(SingleMode(None), GetState(id), Some([0]), false, log[2..3], false,
                          Ok(AccountState(text)), Some([0]))
            && RequestLog(SingleMode(None), forget, Some([0]), true, log[3..], false, Ok(Forgotten), Some([1]))
            && !Balanced(tables, log, 0)
            && var after := Replay(tables, log, 0);
               && |after| == |tables| && id in after[0] && id !in after[1]
               && (id in tables[1] ==> after[1] != tables[1])
  {
    var load, run := Load(address, None), RunMethod(id, method_, args);
    var log := ForgetRetried(load, run, id, ran, text, error, flags);
    ForgetRetriedReplays(tables, load, run, id, ran, text, error, flags);
    ForgetElsewhereTakesAnothersId(tables, 0, 1, id);
    RestoredExactlyWhenBalanced(tables, log, 0);
    assert Eligible(flags, Some(true), 1);
    assert log[3..] == [log[3], log[4], log[5]];
  }

  function ForgetRetried(
    load: Call, run: Call, id: int, ran: Answer, text: string, error: Error, flags: seq<WorkerInfo>): seq<Entry>
  {
    [OneAnswer(0, load, Ok(Loaded(id))), OneAnswer(0, run, Ok(ran)), OneAnswer(0, GetState(id), Ok(AccountState(text))),
     OneAnswer(0, Forget(id), Err(error)), Chosen(flags, SingleMode(Some(true)), Selected([1])),
     OneAnswer(1, Forget(id), Ok(Forgotten))]
  }

  lemma {:induction false} ForgetRetriedReplays(
    tables: Tables, load: Call, run: Call, id: int, ran: Answer, text: string, error: Error, flags: seq<WorkerInfo>)
    requires |tables| > 1 && load.Load? && run.RunMethod?
    ensures var held := tables[0 := tables[0] + {id}];
            Replay(tables, ForgetRetried(load, run, id, ran, text, error, flags), 0) == held[1 := held[1] - {id}]
  {
    var log := ForgetRetried(load, run, id, ran, text, error, flags);
    var held := tables[0 := tables[0] + {id}];
    OneAnswerReplays(tables, [], 0, load, Ok(Loaded(id)));
    OneAnswerReplays(tables, log[..1], 0, run, Ok(ran));
    OneAnswerReplays(tables, log[..2], 0, GetState(id), Ok(AccountState(text)));
    OneAnswerReplays(tables, log[..3], 0, Forget(id), Err(error));
    ReplaySnoc(tables, log[..4], log[4], 0);
    OneAnswerReplays(tables, log[..5], 1, Forget(id), Ok(Forgotten));
    assert [] + [log[0]] == log[..1] && log[..1] + [log[1]] == log[..2] && log[..2] + [log[2]] == log[..3];
    assert log[..3] + [log[3]] == log[..4] && log[..4] + [log[4]] == log[..5] && log[..5] + [log[5]] == log;
    assert Replay(tables, log[..4], 0) == held;
  }

  /** When load/forget conservation needs no look at the session: one worker,
      data in the answer, and no forget that failed. */
  ghost predicate Restores<T>(before: Option<seq<nat>>, result: Result<Option<T>>, log: seq<Entry>, base: nat) {
    OneWorker(before) && result.Ok? && result.value.Some? && ForgetsSucceed(log, base)
  }

  /** The part of a check that has the token's contract loaded as `id`: run its
      get-method, read the answer, forget. */
  method ReadLoaded(
    cluster: Cluster, foreign: Foreign, id: int, methodName: string, archival: Option<bool>, session: Session,
    ghost address: string, ghost base: nat)
    returns (result: Result<Option<Fields>>)
    requires Usable(cluster, session) && base <= |cluster.log|
    requires Follow(cluster.log, base) == Watch(true, Some((id, session.activeWorkers)))
    modifies cluster, session
    ensures Usable(cluster, session) && old(cluster.log) <= cluster.log
    ensures Follow(cluster.log, base) == Follow(old(cluster.log), base)
    ensures |old(session.activeWorkers)| == 1 ==>
              && AllSingle(cluster.log, |old(cluster.log)|)
              && Forgot(old(cluster.tables), cluster.tables, session.activeWorkers, id,
                        result.Ok? && result.value.Some?)
    ensures result.Ok? && result.value.Some? && ForgetsSucceed(cluster.log, |old(cluster.log)|) ==>
              session.activeWorkers == old(session.activeWorkers)
    ensures result.Ok? && result.value.Some? ==>
              exists k, stack ::
                && AnsweredAt(cluster.log, |old(cluster.log)|, k, old(session.activeWorkers),
                              RunMethod(id, methodName, []), MethodResult(0, stack))
                && foreign.decode(methodName, stack) == Ok(result.value.value)
    ensures result == Ok(None) <==> NoAnswer(cluster.log, |old(cluster.log)|, |old(cluster.log)|, methodName)
    ensures Accounted(cluster.log, |old(cluster.log)|, foreign, methodName, address, result)
  {
    ghost var k, workers := |cluster.log|, session.activeWorkers;
    var ran := Ask(cluster, archival, RunMethod(id, methodName, []), session, base);
    if ran.Err? || ran.value.exitCode != 0 {
      return Ok(None);
    }
    var fields := foreign.decode(methodName, ran.value.stack);
    if fields.Err? {
      assert Blamed(cluster.log, k, k, foreign, methodName, address, fields.error);
      return Err(fields.error);
    }
    var forgotten := ForgetContract(cluster, id, archival, session, base);
    if forgotten.Err? {
      result := Err(forgotten.error);
      HaltsIsAccounted(cluster.log, k + 1, k, foreign, methodName, address, result);
      return;
    }
    result := Ok(Some(fields.value));
    assert AnsweredAt(cluster.log, k, k, workers, RunMethod(id, methodName, []), MethodResult(0, ran.value.stack));
    if ForgetsSucceed(cluster.log, k) {
      LaterForgetsSucceed(cluster.log, k, k + 1);
    }
  }

  lemma {:induction false} LoadedAndRead(
    early: seq<Entry>, log: seq<Entry>, base: nat, foreign: Foreign, address: string, seqno: Option<nat>,
    id: int, workers: seq<nat>, method_: string, fields: Fields)
    requires early <= log && Holds(early, base, address, seqno, id, workers)
    requires exists k, stack ::
               && AnsweredAt(log, |early|, k, workers, RunMethod(id, method_, []), MethodResult(0, stack))
               && foreign.decode(method_, stack) == Ok(fields)
    ensures exists j, k, stack ::
              RanOn(log, base, j, k, address, seqno, method_, [], stack) && foreign.decode(method_, stack) == Ok(fields)
  {
    var j :| LoadedAt(early, base, j, address, seqno, id, workers);
    LoadsForGrows(early, log, base, base, j, address, seqno);
    var k, stack :| AnsweredAt(log, |early|, k, workers, RunMethod(id, method_, []), MethodResult(0, stack))
                    && foreign.decode(method_, stack) == Ok(fields);
    assert RanOn(log, base, j, k, address, seqno, method_, [], stack);
  }

  /** The part the four checks share: load, run the token's get-method, read the
      answer, forget. A failed or non-zero run is no error, only no token. */
  method ReadToken(
    cluster: Cluster, foreign: Foreign, address: string, methodName: string,
    seqno: Option<nat>, archival: Option<bool>, session: Session?)
    returns (result: Result<Option<Fields>>, newSession: Session?)
    requires Usable(cluster, session)
    modifies cluster, session
    ensures Usable(cluster, newSession) && Threads(session, newSession) && old(cluster.log) <= cluster.log
    ensures OneWorker(old(Workers(session))) ==> OneWorker(Workers(newSession))
    ensures Affine(cluster.log, |old(cluster.log)|, OneWorker(old(Workers(session))))
    ensures OneWorker(old(Workers(session))) ==>
              (cluster.tables == old(cluster.tables)
               <==> GivenBack(result.Ok? && result.value.Some?, Follow(cluster.log, |old(cluster.log)|).held,
                              Workers(newSession)))
    ensures OneWorker(old(Workers(session))) ==>
              Handled(old(cluster.tables), cluster.tables, Follow(cluster.log, |old(cluster.log)|).held,
                      Workers(newSession), result.Ok? && result.value.Some?)
    ensures Restores(old(Workers(session)), result, cluster.log, |old(cluster.log)|) ==>
              cluster.tables == old(cluster.tables)
    ensures result.Ok? && result.value.Some? ==>
              exists j, k, stack ::
                && RanOn(cluster.log, |old(cluster.log)|, j, k, address, seqno, methodName, [], stack)
                && foreign.decode(methodName, stack) == Ok(result.value.value)
    ensures session == null ==> OpenedFor(cluster.log, |old(cluster.log)|, archival)
    ensures Accounted(cluster.log, |old(cluster.log)|, foreign, methodName, address, result)
  {
    ghost var base, tables, single := |cluster.log|, cluster.tables, OneWorker(Workers(session));
    var loaded, s := LoadContract(cluster, address, seqno, archival, session, base);
    newSession := s;
    if loaded.Err? {
      result := Err(loaded.error);
      HaltsIsAccounted(cluster.log, base, base, foreign, methodName, address, result);
      return;
    }
    ghost var early, issuer, held := cluster.log, newSession.activeWorkers, cluster.tables;
    result := ReadLoaded(cluster, foreign, loaded.value, methodName, archival, newSession, address, base);
    AccountedGrows(cluster.log, cluster.log, |early|, base, foreign, methodName, address, result);
    if single {
      LoadThenForget(tables, held, cluster.tables, issuer, newSession.activeWorkers, loaded.value,
                     result.Ok? && result.value.Some?);
    }
    if result.Ok? && result.value.Some? {
      LoadedAndRead(early, cluster.log, base, foreign, address, seqno, loaded.value, issuer, methodName,
                    result.value.value);
    }
    if ForgetsSucceed(cluster.log, base) {
      LaterForgetsSucceed(cluster.log, base, |early|);
    }
  }

  method CheckJettonMaster(
    cluster: Cluster, foreign: Foreign, address: string, seqno: Option<nat>, archival: Option<bool>, session: Session?)
    returns (result: Result<Option<Token>>, newSession: Session?)
    requires Usable(cluster, session)
    modifies cluster, session
    ensures Usable(cluster, newSession) && Threads(session, newSession) && old(cluster.log) <= cluster.log
    ensures Affine(cluster.log, |old(cluster.log)|, OneWorker(old(Workers(session))))
    ensures cluster.tables == old(cluster.tables)
       <==> Balanced(old(cluster.tables), cluster.log, |old(cluster.log)|)
    ensures OneWorker(old(Workers(session))) ==>
              (cluster.tables == old(cluster.tables)
               <==> GivenBack(result.Ok? && result.value.Some?, Follow(cluster.log, |old(cluster.log)|).held,
                              Workers(newSession)))
    ensures Restores(old(Workers(session)), result, cluster.log, |old(cluster.log)|) ==>
              cluster.tables == old(cluster.tables)
    ensures result.Ok? && result.value.Some? ==>
              && ReadFrom(cluster.log, |old(cluster.log)|, foreign, address, seqno, "get_jetton_data",
                          result.value.value)
              && Unverified(result.value.value)
    ensures session == null ==> OpenedFor(cluster.log, |old(cluster.log)|, archival)
    ensures Accounted(cluster.log, |old(cluster.log)|, foreign, "get_jetton_data", address, result)
  {
    ghost var before, tables := cluster.log, cluster.tables;
    result, newSession := CheckUnverified(cluster, foreign, address, "get_jetton_data", seqno, archival, session);
    RestoredOverLog(cluster.size, before, cluster.log, tables, cluster.tables);
  }

  method CheckNftCollection(
    cluster: Cluster, foreign: Foreign, address: string, seqno: Option<nat>, archival: Option<bool>, session: Session?)
    returns (result: Result<Option<Token>>, newSession: Session?)
    requires Usable(cluster, session)
    modifies cluster, session
    ensures Usable(cluster, newSession) && Threads(session, newSession) && old(cluster.log) <= cluster.log
    ensures Affine(cluster.log, |old(cluster.log)|, OneWorker(old(Workers(session))))
    ensures cluster.tables == old(cluster.tables)
       <==> Balanced(old(cluster.tables), cluster.log, |old(cluster.log)|)
    ensures OneWorker(old(Workers(session))) ==>
              (cluster.tables == old(cluster.tables)
               <==> GivenBack(result.Ok? && result.value.Some?, Follow(cluster.log, |old(cluster.log)|).held,
                              Workers(newSession)))
    ensures Restores(old(Workers(session)), result, cluster.log, |old(cluster.log)|) ==>
              cluster.tables == old(cluster.tables)
    ensures result.Ok? && result.value.Some? ==>
              && ReadFrom(cluster.log, |old(cluster.log)|, foreign, address, seqno, "get_collection_data",
                          result.value.value)
              && Unverified(result.value.value)
    ensures session == null ==> OpenedFor(cluster.log, |old(cluster.log)|, archival)
    ensures Accounted(cluster.log, |old(cluster.log)|, foreign, "get_collection_data", address, result)
  {
    ghost var before, tables := cluster.log, cluster.tables;
    result, newSession := CheckUnverified(cluster, foreign, address, "get_collection_data", seqno, archival, session);
    RestoredOverLog(cluster.size, before, cluster.log, tables, cluster.tables);
  }

  /** The token's fields are what its own get-method returned. */
  ghost predicate ReadFrom(
    log: seq<Entry>, base: nat, foreign: Foreign, address: string, seqno: Option<nat>, methodName: string, token: Token)
  {
    token.address == address
    && exists j, k, stack ::
         && RanOn(log, base, j, k, address, seqno, methodName, [], stack)
         && foreign.decode(methodName, stack) == Ok(token.fields)
  }

  method CheckUnverified(
    cluster: Cluster, foreign: Foreign, address: string, methodName: string,
    seqno: Option<nat>, archival: Option<bool>, session: Session?)
    returns (result: Result<Option<Token>>, newSession: Session?)
    requires Usable(cluster, session)
    modifies cluster, session
    ensures Usable(cluster, newSession) && Threads(session, newSession) && old(cluster.log) <= cluster.log
    ensures OneWorker(old(Workers(session))) ==> OneWorker(Workers(newSession))
    ensures Affine(cluster.log, |old(cluster.log)|, OneWorker(old(Workers(session))))
    ensures OneWorker(old(Workers(session))) ==>
              (cluster.tables == old(cluster.tables)
               <==> GivenBack(result.Ok? && result.value.Some?, Follow(cluster.log, |old(cluster.log)|).held,
                              Workers(newSession)))
    ensures OneWorker(old(Workers(session))) ==>
              Handled(old(cluster.tables), cluster.tables, Follow(cluster.log, |old(cluster.log)|).held,
                      Workers(newSession), result.Ok? && result.value.Some?)
    ensures Restores(old(Workers(session)), result, cluster.log, |old(cluster.log)|) ==>
              cluster.tables == old(cluster.tables)
    ensures result.Ok? && result.value.Some? ==>
              && ReadFrom(cluster.log, |old(cluster.log)|, foreign, address, seqno, methodName, result.value.value)
              && Unverified(result.value.value)
    ensures session == null ==> OpenedFor(cluster.log, |old(cluster.log)|, archival)
    ensures Accounted(cluster.log, |old(cluster.log)|, foreign, methodName, address, result)
  {
    var read, s := ReadToken(cluster, foreign, address, methodName, seqno, archival, session);
    newSession := s;
    if read.Err? {
      return Err(read.error), newSession;
    }
    if read.value.None? {
      return Ok(None), newSession;
    }
    result := Ok(Some(Token(address, read.value.value, None, OwnContent(read.value.value))));
  }

  lemma {:induction false} PrefixOfGoodForgets(log: seq<Entry>, longer: seq<Entry>, base: nat)
    requires log <= longer && ForgetsSucceed(longer, base)
    ensures ForgetsSucceed(log, base)
  {
    forall k | base <= k < |log| && log[k].Sent? && log[k].call.Forget?
      ensures log[k].Wf() && log[k].Delivered().Ok?
    {
      assert longer[k] == log[k];
    }
  }

  lemma {:induction false} ReadFromGrows(
    log: seq<Entry>, longer: seq<Entry>, base: nat, foreign: Foreign, address: string, seqno: Option<nat>,
    methodName: string, token: Token, final: Token)
    requires log <= longer && ReadFrom(log, base, foreign, address, seqno, methodName, token)
    requires final.address == token.address && final.fields == token.fields
    ensures ReadFrom(longer, base, foreign, address, seqno, methodName, final)
  {
    var j, k, stack :|
      && RanOn(log, base, j, k, address, seqno, methodName, [], stack)
      && foreign.decode(methodName, stack) == Ok(token.fields);
    RanOnGrows(log, longer, base, base, j, k, address, seqno, methodName, [], stack);
  }

  lemma {:induction false} VouchedGrows(
    log: seq<Entry>, longer: seq<Entry>, late: nat, base: nat, foreign: Foreign,
    parent: string, seqno: Option<nat>, method_: string, args: Stack, address: string)
    requires log <= longer && base <= late && Vouched(log, late, foreign, parent, seqno, method_, args, address)
    ensures Vouched(longer, base, foreign, parent, seqno, method_, args, address)
  {
    var j, k, stack :|
      RanOn(log, late, j, k, parent, seqno, method_, args, stack) && NamesAddress(foreign, stack, address);
    RanOnGrows(log, longer, late, base, j, k, parent, seqno, method_, args, stack);
  }

  /** The parent contract, loaded as `id`, is asked with `args` for an address,
      which must be that of the token. */
  method AskAddress(
    cluster: Cluster, foreign: Foreign, address: string, id: int, methodName: string, args: Stack,
    mismatch: string, archival: Option<bool>, session: Session, ghost own: string, ghost base: nat)
    returns (result: Result<Option<()>>)
    requires Usable(cluster, session) && base <= |cluster.log|
    requires methodName != own && methodName != "get_nft_content"
    requires Follow(cluster.log, base) == Watch(true, Some((id, session.activeWorkers)))
    modifies cluster, session
    ensures Usable(cluster, session) && session.activeWorkers == old(session.activeWorkers)
    ensures |cluster.log| == |old(cluster.log)| + 1 && old(cluster.log) <= cluster.log
    ensures Follow(cluster.log, base) == Follow(old(cluster.log), base)
    ensures |session.activeWorkers| == 1 ==>
              cluster.tables == old(cluster.tables) && AllSingle(cluster.log, |old(cluster.log)|)
    ensures Accounted(cluster.log, |old(cluster.log)|, foreign, own, address, result)
    ensures result.Ok? && result.value.Some? ==>
              exists stack ::
                && AnsweredAt(cluster.log, |old(cluster.log)|, |old(cluster.log)|, session.activeWorkers,
                              RunMethod(id, methodName, args), MethodResult(0, stack))
                && NamesAddress(foreign, stack, address)
  {
    ghost var k := |cluster.log|;
    var ran := Ask(cluster, archival, RunMethod(id, methodName, args), session, base);
    if ran.Err? {
      assert Blamed(cluster.log, k, k, foreign, own, address, ran.error);
      return Err(ran.error);
    }
    if ran.value.exitCode != 0 {
      assert NoAnswer(cluster.log, k, k, own);
      return Ok(None);
    }
    assert AnsweredAt(cluster.log, k, k, session.activeWorkers, RunMethod(id, methodName, args), ran.value);
    var named := foreign.addressOf(ran.value.stack);
    if named.Err? {
      assert Blamed(cluster.log, k, k, foreign, own, address, named.error);
      return Err(named.error);
    }
    var same := foreign.sameAddress(named.value, address);
    if same.Err? {
      assert Blamed(cluster.log, k, k, foreign, own, address, same.error);
      return Err(same.error);
    }
    if !same.value {
      assert Blamed(cluster.log, k, k, foreign, own, address, Error(409, mismatch));
      return Err(Error(409, mismatch));
    }
    result := Ok(Some(()));
    assert ran.value == MethodResult(0, ran.value.stack) && NamesAddress(foreign, ran.value.stack, address);
  }

  /** The verification the wallet and the item check share: load the parent
      contract, ask it with `args` for an address, compare. The arguments are
      built after the load, so a failure to build them comes after it too. On
      success the parent contract is still loaded. */
  method AskParent(
    cluster: Cluster, foreign: Foreign, address: string, parent: string, methodName: string, args: Result<Stack>,
    mismatch: string, seqno: Option<nat>, archival: Option<bool>, session: Session?, ghost own: string)
    returns (result: Result<Option<int>>, newSession: Session?)
    requires Usable(cluster, session) && methodName != own && methodName != "get_nft_content"
    modifies cluster, session
    ensures Usable(cluster, newSession) && Threads(session, newSession) && old(cluster.log) <= cluster.log
    ensures Follow(cluster.log, |old(cluster.log)|).good
    ensures OneWorker(old(Workers(session))) ==>
              && OneWorker(Workers(newSession)) && AllSingle(cluster.log, |old(cluster.log)|)
              && Handled(old(cluster.tables), cluster.tables, Follow(cluster.log, |old(cluster.log)|).held,
                         Workers(newSession), false)
    ensures || Accounted(cluster.log, |old(cluster.log)|, foreign, own, address, result)
            || (args.Err? && result == Err(args.error))
    ensures result.Ok? && result.value.Some? ==>
              && newSession != null && args.Ok?
              && Follow(cluster.log, |old(cluster.log)|).held == Some((result.value.value, newSession.activeWorkers))
              && Vouched(cluster.log, |old(cluster.log)|, foreign, parent, seqno, methodName, args.value, address)
              && Holds(cluster.log, |old(cluster.log)|, parent, seqno, result.value.value, newSession.activeWorkers)
              && (OneWorker(old(Workers(session))) ==>
                    var w := newSession.activeWorkers[0];
                    && result.value.value !in old(cluster.tables)[w]
                    && cluster.tables == old(cluster.tables)[w := old(cluster.tables)[w] + {result.value.value}])
  {
    ghost var start := |cluster.log|;
    var loaded, s := LoadContract(cluster, parent, seqno, archival, session, start);
    newSession := s;
    if loaded.Err? {
      result := Err(loaded.error);
      HaltsIsAccounted(cluster.log, start, start, foreign, own, address, result);
      return;
    }
    var id := loaded.value;
    ghost var j, early := |cluster.log| - 1, cluster.log;
    if args.Err? {
      return Err(args.error), newSession;
    }
    var named := AskAddress(cluster, foreign, address, id, methodName, args.value, mismatch, archival, newSession, own,
                            start);
    AccountedGrows(cluster.log, cluster.log, |early|, start, foreign, own, address, named);
    if named.Err? {
      return Err(named.error), newSession;
    }
    if named.value.None? {
      return Ok(None), newSession;
    }
    result := Ok(Some(id));
    LoadsForGrows(early, cluster.log, start, start, j, parent, seqno);
    assert LoadedAt(cluster.log, start, j, parent, seqno, id, newSession.activeWorkers);
    ghost var stack :| AnsweredAt(cluster.log, |early|, |early|, newSession.activeWorkers,
                                  RunMethod(id, methodName, args.value), MethodResult(0, stack))
                       && NamesAddress(foreign, stack, address);
    assert RanOn(cluster.log, start, j, |early|, parent, seqno, methodName, args.value, stack);
  }

  lemma {:induction false} AllSingleComposes(log: seq<Entry>, longer: seq<Entry>, base: nat)
    requires log <= longer && AllSingle(log, base) && AllSingle(longer, |log|)
    ensures AllSingle(longer, base)
  {
    forall k | base <= k < |log|
      ensures longer[k] == log[k]
    {
    }
  }

  /** The second part of the wallet check. */
  method VerifyWallet(
    cluster: Cluster, foreign: Foreign, token: Token, seqno: Option<nat>, archival: Option<bool>, session: Session?)
    returns (result: Result<Option<Token>>, newSession: Session?)
    requires Usable(cluster, session)
    modifies cluster, session
    ensures Usable(cluster, newSession) && Threads(session, newSession) && old(cluster.log) <= cluster.log
    ensures Follow(cluster.log, |old(cluster.log)|).good
    ensures OneWorker(old(Workers(session))) ==> AllSingle(cluster.log, |old(cluster.log)|)
    ensures OneWorker(old(Workers(session))) ==>
              Handled(old(cluster.tables), cluster.tables, Follow(cluster.log, |old(cluster.log)|).held,
                      Workers(newSession), result.Ok? && result.value.Some?)
    ensures Restores(old(Workers(session)), result, cluster.log, |old(cluster.log)|) ==>
              cluster.tables == old(cluster.tables)
    ensures || Accounted(cluster.log, |old(cluster.log)|, foreign, "get_wallet_data", token.address, result)
            || (foreign.ownerCell(token.fields.owner).Err?
                && result == Err(foreign.ownerCell(token.fields.owner).error))
    ensures result.Ok? && result.value.Some? ==>
              && result.value.value == token.(validated := Some(true))
              && foreign.ownerCell(token.fields.owner).Ok?
              && Vouched(cluster.log, |old(cluster.log)|, foreign, token.fields.parent, seqno, "get_wallet_address",
                         [foreign.ownerCell(token.fields.owner).value], token.address)
  {
    ghost var start, single, tables := |cluster.log|, OneWorker(Workers(session)), cluster.tables;
    var cell := foreign.ownerCell(token.fields.owner);
    var args: Result<Stack> := if cell.Ok? then Ok([cell.value]) else Err(cell.error);
    var parent, s := AskParent(cluster, foreign, token.address, token.fields.parent, "get_wallet_address", args,
                               "Verification on master failed", seqno, archival, session,
                               "get_wallet_data");
    newSession := s;
    if parent.Err? {
      return Err(parent.error), newSession;
    }
    if parent.value.None? {
      return Ok(None), newSession;
    }
    ghost var log2, workers, middle := cluster.log, newSession.activeWorkers, cluster.tables;
    ghost var held := Some((parent.value.value, workers));
    var forgotten := ForgetContract(cluster, parent.value.value, archival, newSession, start);
    if single {
      HandledByForget(tables, middle, cluster.tables, held, Some(workers), newSession.activeWorkers, forgotten.Ok?);
      AllSingleComposes(log2, cluster.log, start);
    }
    if forgotten.Err? {
      result := Err(forgotten.error);
      HaltsIsAccounted(cluster.log, |log2|, start, foreign, "get_wallet_data", token.address, result);
      return;
    }
    result := Ok(Some(token.(validated := Some(true))));
    VouchedGrows(log2, cluster.log, start, start, foreign, token.fields.parent, seqno, "get_wallet_address", args.value,
                 token.address);
    if single {
      SucceedingForgetRestores(tables, cluster.tables, held, newSession.activeWorkers, cluster.log, start, |log2|);
    }
  }

  /** The second part of the wallet check fails for a reason of its own, or on
      the owner that the token's own get-method named in the first part. */
  lemma {:induction false} WalletAccounted(
    log1: seq<Entry>, log: seq<Entry>, base: nat, foreign: Foreign, token: Token, seqno: Option<nat>,
    result: Result<Option<Token>>)
    requires log1 <= log && base <= |log1|
    requires ReadFrom(log1, base, foreign, token.address, seqno, "get_wallet_data", token)
    requires || Accounted(log, |log1|, foreign, "get_wallet_data", token.address, result)
             || (foreign.ownerCell(token.fields.owner).Err?
                 && result == Err(foreign.ownerCell(token.fields.owner).error))
    ensures Accounted(log, base, foreign, "get_wallet_data", token.address, result)
  {
    if Accounted(log, |log1|, foreign, "get_wallet_data", token.address, result) {
      AccountedGrows(log, log, |log1|, base, foreign, "get_wallet_data", token.address, result);
    } else {
      var j, k, stack :|
        && RanOn(log1, base, j, k, token.address, seqno, "get_wallet_data", [], stack)
        && foreign.decode("get_wallet_data", stack) == Ok(token.fields);
      assert Blamed(log, base, k, foreign, "get_wallet_data", token.address, result.error);
    }
  }

  /** The wallet check, with what becomes of its two contracts. */
  method WalletPhases(
    cluster: Cluster, foreign: Foreign, address: string, skipVerification: bool,
    seqno: Option<nat>, archival: Option<bool>, session: Session?)
    returns (result: Result<Option<Token>>, newSession: Session?,
             ghost log1: seq<Entry>, ghost tables1: Tables, ghost first: Phase, ghost second: Option<Phase>)
    requires Usable(cluster, session)
    modifies cluster, session
    ensures Usable(cluster, newSession) && Threads(session, newSession)
    ensures tables1 == Replay(NothingLoaded(cluster.size), log1, 0)
    ensures PhaseFacts(old(cluster.log), log1, cluster.log, old(cluster.tables), tables1, cluster.tables,
                       first, second, OneWorker(old(Workers(session))), result.Ok? && result.value.Some?,
                       Workers(newSession))
    ensures session == null ==> OpenedFor(cluster.log, |old(cluster.log)|, archival)
    ensures Accounted(cluster.log, |old(cluster.log)|, foreign, "get_wallet_data", address, result)
    ensures result.Ok? && result.value.Some? ==>
              var token := result.value.value;
              && ReadFrom(cluster.log, |old(cluster.log)|, foreign, address, seqno, "get_wallet_data", token)
              && token.validated == (if skipVerification then None else Some(true))
              && token.content == (if token.fields.parent == "" then token.fields.text else "")
              && (token.validated == Some(true) ==>
                    && foreign.ownerCell(token.fields.owner).Ok?
                    && Vouched(cluster.log, |old(cluster.log)|, foreign, token.fields.parent, seqno,
                               "get_wallet_address", [foreign.ownerCell(token.fields.owner).value], address))
  {
    ghost var base := |cluster.log|;
    result, newSession := CheckUnverified(cluster, foreign, address, "get_wallet_data", seqno, archival, session);
    log1, tables1, second := cluster.log, cluster.tables, None;
    first := Phase(Follow(log1, base).held, result.Ok? && result.value.Some?, Workers(newSession));
    if result.Err? || result.value.None? || skipVerification {
      return;
    }
    var token := result.value.value;
    result, newSession := VerifyWallet(cluster, foreign, token, seqno, archival, newSession);
    second := Some(Phase(Follow(cluster.log, |log1|).held, result.Ok? && result.value.Some?, Workers(newSession)));
    WalletAccounted(log1, cluster.log, base, foreign, token, seqno, result);
    if result.Ok? && result.value.Some? {
      CombineChecks(log1, cluster.log, base, foreign, seqno, "get_wallet_data", token, result.value.value);
      VouchedGrows(cluster.log, cluster.log, |log1|, base, foreign, token.fields.parent, seqno, "get_wallet_address",
                   [foreign.ownerCell(token.fields.owner).value], address);
    }
  }

  method CheckJettonWallet(
    cluster: Cluster, foreign: Foreign, address: string, skipVerification: bool,
    seqno: Option<nat>, archival: Option<bool>, session: Session?)
    returns (result: Result<Option<Token>>, newSession: Session?,
             ghost mid: nat, ghost first: Phase, ghost second: Option<Phase>)
    requires Usable(cluster, session)
    modifies cluster, session
    ensures Usable(cluster, newSession) && Threads(session, newSession) && old(cluster.log) <= cluster.log
    ensures Affine(cluster.log, |old(cluster.log)|, OneWorker(old(Workers(session))))
    // conservation: in general, for one worker, and for one worker with forgets that need no retry
    ensures cluster.tables == old(cluster.tables)
       <==> Balanced(old(cluster.tables), cluster.log, |old(cluster.log)|)
    ensures ArePhases(cluster.log, |old(cluster.log)|, mid, first, second, result.Ok? && result.value.Some?,
                      Workers(newSession))
    ensures OneWorker(old(Workers(session))) ==>
              if second.None? then cluster.tables == old(cluster.tables) <==> first.IsGivenBack()
              else Untouched(old(cluster.tables), cluster.log, |old(cluster.log)|) ==>
                     (cluster.tables == old(cluster.tables) <==> first.IsGivenBack() && second.value.IsGivenBack())
    ensures Restores(old(Workers(session)), result, cluster.log, |old(cluster.log)|) ==>
              cluster.tables == old(cluster.tables)
    ensures session == null ==> OpenedFor(cluster.log, |old(cluster.log)|, archival)
    ensures Accounted(cluster.log, |old(cluster.log)|, foreign, "get_wallet_data", address, result)
    ensures result.Ok? && result.value.Some? ==>
              var token := result.value.value;
              && ReadFrom(cluster.log, |old(cluster.log)|, foreign, address, seqno, "get_wallet_data", token)
              && token.validated == (if skipVerification then None else Some(true))
              && token.content == (if token.fields.parent == "" then token.fields.text else "")
              && (token.validated == Some(true) ==>
                    && foreign.ownerCell(token.fields.owner).Ok?
                    && Vouched(cluster.log, |old(cluster.log)|, foreign, token.fields.parent, seqno,
                               "get_wallet_address", [foreign.ownerCell(token.fields.owner).value], address))
  {
    ghost var before, tables, single := cluster.log, cluster.tables, OneWorker(Workers(session));
    ghost var log1, tables1;
    result, newSession, log1, tables1, first, second :=
      WalletPhases(cluster, foreign, address, skipVerification, seqno, archival, session);
    mid := |log1|;
    PhasesAccount(cluster.size, before, log1, cluster.log, tables, tables1, cluster.tables, first, second, single,
                  result.Ok? && result.value.Some?, Workers(newSession));
  }

  /** What the first part of a check established still holds at its end. */
  lemma {:induction false} CombineChecks(
    log1: seq<Entry>, log: seq<Entry>, base: nat, foreign: Foreign, seqno: Option<nat>, methodName: string,
    token: Token, final: Token)
    requires log1 <= log && base <= |log1|
    requires ReadFrom(log1, base, foreign, token.address, seqno, methodName, token)
    requires final.address == token.address && final.fields == token.fields
    ensures ReadFrom(log, base, foreign, token.address, seqno, methodName, final)
    ensures ForgetsSucceed(log, base) ==> ForgetsSucceed(log1, base) && ForgetsSucceed(log, |log1|)
    ensures AllSingle(log1, base) && AllSingle(log, |log1|) ==> AllSingle(log, base)
  {
    ReadFromGrows(log1, log, base, foreign, token.address, seqno, methodName, token, final);
    if ForgetsSucceed(log, base) {
      PrefixOfGoodForgets(log1, log, base);
    }
  }

  /** The item check, with what becomes of its one or two contracts. */
  method ItemPhases(
    cluster: Cluster, foreign: Foreign, address: string, skipVerification: bool,
    seqno: Option<nat>, archival: Option<bool>, session: Session?)
    returns (result: Result<Option<Token>>, newSession: Session?,
             ghost log1: seq<Entry>, ghost tables1: Tables, ghost first: Phase, ghost second: Option<Phase>)
    requires Usable(cluster, session)
    modifies cluster, session
    ensures Usable(cluster, newSession) && Threads(session, newSession)
    ensures tables1 == Replay(NothingLoaded(cluster.size), log1, 0)
    ensures PhaseFacts(old(cluster.log), log1, cluster.log, old(cluster.tables), tables1, cluster.tables,
                       first, second, OneWorker(old(Workers(session))), result.Ok? && result.value.Some?,
                       Workers(newSession))
    ensures session == null ==> OpenedFor(cluster.log, |old(cluster.log)|, archival)
    ensures Accounted(cluster.log, |old(cluster.log)|, foreign, "get_nft_data", address, result)
    ensures result.Ok? && result.value.Some? ==>
              var token := result.value.value;
              && ReadFrom(cluster.log, |old(cluster.log)|, foreign, address, seqno, "get_nft_data", token)
              && token.validated == (if skipVerification then None else Some(true))
              && if token.validated == Some(true) && token.fields.parent != "" then
                   && Vouched(cluster.log, |old(cluster.log)|, foreign, token.fields.parent, seqno,
                              "get_nft_address_by_index", [token.fields.index], address)
                   && ContentFrom(cluster.log, |old(cluster.log)|, foreign, token, seqno, token.content)
                 else token.content == if token.fields.parent == "" then token.fields.text else ""
  {
    ghost var base := |cluster.log|;
    result, newSession := CheckUnverified(cluster, foreign, address, "get_nft_data", seqno, archival, session);
    log1, tables1, second := cluster.log, cluster.tables, None;
    first := Phase(Follow(log1, base).held, result.Ok? && result.value.Some?, Workers(newSession));
    if result.Err? || result.value.None? || skipVerification {
      return;
    }
    var token := result.value.value;
    if token.fields.parent == "" {
      result := Ok(Some(token.(validated := Some(true))));
      CombineChecks(log1, cluster.log, base, foreign, seqno, "get_nft_data", token, result.value.value);
      return;
    }
    result, newSession := VerifyItem(cluster, foreign, token, seqno, archival, newSession);
    second := Some(Phase(Follow(cluster.log, |log1|).held, result.Ok? && result.value.Some?, Workers(newSession)));
    AccountedGrows(cluster.log, cluster.log, |log1|, base, foreign, "get_nft_data", address, result);
    if result.Ok? && result.value.Some? {
      ItemVerified(log1, cluster.log, base, foreign, seqno, token, result.value.value);
    }
  }

  method CheckNftItem(
    cluster: Cluster, foreign: Foreign, address: string, skipVerification: bool,
    seqno: Option<nat>, archival: Option<bool>, session: Session?)
    returns (result: Result<Option<Token>>, newSession: Session?,
             ghost mid: nat, ghost first: Phase, ghost second: Option<Phase>)
    requires Usable(cluster, session)
    modifies cluster, session
    ensures Usable(cluster, newSession) && Threads(session, newSession) && old(cluster.log) <= cluster.log
    ensures Affine(cluster.log, |old(cluster.log)|, OneWorker(old(Workers(session))))
    // conservation: in general, for one worker, and for one worker with forgets that need no retry
    ensures cluster.tables == old(cluster.tables)
       <==> Balanced(old(cluster.tables), cluster.log, |old(cluster.log)|)
    ensures ArePhases(cluster.log, |old(cluster.log)|, mid, first, second, result.Ok? && result.value.Some?,
                      Workers(newSession))
    ensures OneWorker(old(Workers(session))) ==>
              if second.None? then cluster.tables == old(cluster.tables) <==> first.IsGivenBack()
              else Untouched(old(cluster.tables), cluster.log, |old(cluster.log)|) ==>
                     (cluster.tables == old(cluster.tables) <==> first.IsGivenBack() && second.value.IsGivenBack())
    ensures Restores(old(Workers(session)), result, cluster.log, |old(cluster.log)|) ==>
              cluster.tables == old(cluster.tables)
    ensures session == null ==> OpenedFor(cluster.log, |old(cluster.log)|, archival)
    ensures Accounted(cluster.log, |old(cluster.log)|, foreign, "get_nft_data", address, result)
    ensures result.Ok? && result.value.Some? ==>
              var token := result.value.value;
              && ReadFrom(cluster.log, |old(cluster.log)|, foreign, address, seqno, "get_nft_data", token)
              && token.validated == (if skipVerification then None else Some(true))
              && if token.validated == Some(true) && token.fields.parent != "" then
                   && Vouched(cluster.log, |old(cluster.log)|, foreign, token.fields.parent, seqno,
                              "get_nft_address_by_index", [token.fields.index], address)
                   && ContentFrom(cluster.log, |old(cluster.log)|, foreign, token, seqno, token.content)
                 else token.content == if token.fields.parent == "" then token.fields.text else ""
  {
    ghost var before, tables, single := cluster.log, cluster.tables, OneWorker(Workers(session));
    ghost var log1, tables1;
    result, newSession, log1, tables1, first, second :=
      ItemPhases(cluster, foreign, address, skipVerification, seqno, archival, session);
    mid := |log1|;
    PhasesAccount(cluster.size, before, log1, cluster.log, tables, tables1, cluster.tables, first, second, single,
                  result.Ok? && result.value.Some?, Workers(newSession));
  }

  /** What both parts of the item check established. */
  lemma {:induction false} ItemVerified(
    log1: seq<Entry>, log: seq<Entry>, base: nat, foreign: Foreign, seqno: Option<nat>, token: Token, final: Token)
    requires log1 <= log && base <= |log1| && ReadFrom(log1, base, foreign, token.address, seqno, "get_nft_data", token)
    requires final == token.(validated := Some(true), content := final.content)
    requires Vouched(log, |log1|, foreign, token.fields.parent, seqno, "get_nft_address_by_index", [token.fields.index],
                     token.address)
    requires ContentFrom(log, |log1|, foreign, token, seqno, final.content)
    ensures ReadFrom(log, base, foreign, token.address, seqno, "get_nft_data", final)
    ensures Vouched(log, base, foreign, token.fields.parent, seqno, "get_nft_address_by_index", [token.fields.index],
                    token.address)
    ensures ContentFrom(log, base, foreign, final, seqno, final.content)
    ensures ForgetsSucceed(log, base) ==> ForgetsSucceed(log1, base) && ForgetsSucceed(log, |log1|)
  {
    CombineChecks(log1, log, base, foreign, seqno, "get_nft_data", token, final);
    VouchedGrows(log, log, |log1|, base, foreign, token.fields.parent, seqno, "get_nft_address_by_index",
                 [token.fields.index], token.address);
    ContentGrows(log, log, |log1|, base, foreign, token, seqno, final.content);
  }

  /** The second part of the item check. */
  method VerifyItem(
    cluster: Cluster, foreign: Foreign, token: Token, seqno: Option<nat>, archival: Option<bool>, session: Session?)
    returns (result: Result<Option<Token>>, newSession: Session?)
    requires Usable(cluster, session)
    modifies cluster, session
    ensures Usable(cluster, newSession) && Threads(session, newSession) && old(cluster.log) <= cluster.log
    ensures Follow(cluster.log, |old(cluster.log)|).good
    ensures OneWorker(old(Workers(session))) ==> AllSingle(cluster.log, |old(cluster.log)|)
    ensures OneWorker(old(Workers(session))) ==>
              Handled(old(cluster.tables), cluster.tables, Follow(cluster.log, |old(cluster.log)|).held,
                      Workers(newSession), result.Ok? && result.value.Some?)
    ensures Restores(old(Workers(session)), result, cluster.log, |old(cluster.log)|) ==>
              cluster.tables == old(cluster.tables)
    ensures Accounted(cluster.log, |old(cluster.log)|, foreign, "get_nft_data", token.address, result)
    ensures result.Ok? && result.value.Some? ==>
              && result.value.value == token.(validated := Some(true), content := result.value.value.content)
              && Vouched(cluster.log, |old(cluster.log)|, foreign, token.fields.parent, seqno,
                         "get_nft_address_by_index", [token.fields.index], token.address)
              && ContentFrom(cluster.log, |old(cluster.log)|, foreign, token, seqno, result.value.value.content)
  {
    ghost var start, single, tables := |cluster.log|, OneWorker(Workers(session)), cluster.tables;
    var parent, s := AskParent(cluster, foreign, token.address, token.fields.parent, "get_nft_address_by_index",
                               Ok([token.fields.index]), "Verification on collection failed",
                               seqno, archival, session, "get_nft_data");
    newSession := s;
    if parent.Err? {
      return Err(parent.error), newSession;
    }
    if parent.value.None? {
      return Ok(None), newSession;
    }
    ghost var log2, workers, middle := cluster.log, newSession.activeWorkers, cluster.tables;
    ghost var held := Some((parent.value.value, workers));
    var content :=
      ReadContent(cluster, foreign, parent.value.value, token, archival, newSession, start, start, seqno);
    AccountedGrows(cluster.log, cluster.log, |log2|, start, foreign, "get_nft_data", token.address, content);
    if single {
      HandledByForget(tables, middle, cluster.tables, held, Some(workers), newSession.activeWorkers,
                      content.Ok? && content.value.Some?);
      AllSingleComposes(log2, cluster.log, start);
    }
    if content.Err? {
      return Err(content.error), newSession;
    }
    if content.value.None? {
      return Ok(None), newSession;
    }
    result := Ok(Some(token.(validated := Some(true), content := content.value.value)));
    VouchedGrows(log2, cluster.log, start, start, foreign, token.fields.parent, seqno, "get_nft_address_by_index",
                 [token.fields.index], token.address);
    if single {
      SucceedingForgetRestores(tables, cluster.tables, held, newSession.activeWorkers, cluster.log, start, |log2|);
    }
  }

  /** The item's collection, loaded as `id`, is asked for the item's full content. */
  method AskContent(
    cluster: Cluster, foreign: Foreign, id: int, token: Token, archival: Option<bool>, session: Session,
    ghost base: nat, ghost start: nat, ghost seqno: Option<nat>)
    returns (content: Result<Option<string>>)
    requires Usable(cluster, session) && base <= |cluster.log|
    requires Holds(cluster.log, start, token.fields.parent, seqno, id, session.activeWorkers)
    requires Follow(cluster.log, base) == Watch(true, Some((id, session.activeWorkers)))
    modifies cluster, session
    ensures Usable(cluster, session) && session.activeWorkers == old(session.activeWorkers)
    ensures |cluster.log| == |old(cluster.log)| + 1 && old(cluster.log) <= cluster.log
    ensures Follow(cluster.log, base) == Follow(old(cluster.log), base)
    ensures |session.activeWorkers| == 1 ==>
              cluster.tables == old(cluster.tables) && AllSingle(cluster.log, |old(cluster.log)|)
    ensures !(cluster.log[|old(cluster.log)|].Sent? && cluster.log[|old(cluster.log)|].call.Forget?)
    ensures Accounted(cluster.log, |old(cluster.log)|, foreign, "get_nft_data", token.address, content)
    ensures content == Ok(None) <==> NoAnswer(cluster.log, |old(cluster.log)|, |old(cluster.log)|, "get_nft_data")
    ensures content.Ok? && content.value.Some? ==>
              ContentFrom(cluster.log, start, foreign, token, seqno, content.value.value)
  {
    ghost var log1, workers := cluster.log, session.activeWorkers;
    var shown := Ask(cluster, archival, ContentCall(id, token), session, base);
    if shown.Err? {
      assert Blamed(cluster.log, |log1|, |log1|, foreign, "get_nft_data", token.address, shown.error);
      return Err(shown.error);
    }
    if shown.value.exitCode != 0 {
      assert NoAnswer(cluster.log, |log1|, |log1|, "get_nft_data");
      return Ok(None);
    }
    var text := foreign.contentOf(shown.value.stack);
    if text.Err? {
      assert Blamed(cluster.log, |log1|, |log1|, foreign, "get_nft_data", token.address, text.error);
      return Err(text.error);
    }
    content := Ok(Some(text.value));
    ContentShown(log1, cluster.log, start, foreign, token, seqno, id, workers, |log1|, shown.value.stack);
  }

  /** The end of the item check: the collection turns the item's own content
      into the full one, and the collection's contract is forgotten. */
  method ReadContent(
    cluster: Cluster, foreign: Foreign, id: int, token: Token, archival: Option<bool>, session: Session,
    ghost base: nat, ghost start: nat, ghost seqno: Option<nat>)
    returns (content: Result<Option<string>>)
    requires Usable(cluster, session) && base <= |cluster.log|
    requires Holds(cluster.log, start, token.fields.parent, seqno, id, session.activeWorkers)
    requires Follow(cluster.log, base) == Watch(true, Some((id, session.activeWorkers)))
    modifies cluster, session
    ensures Usable(cluster, session) && old(cluster.log) <= cluster.log
    ensures Follow(cluster.log, base) == Follow(old(cluster.log), base)
    ensures content.Ok? && content.value.Some? ==>
              ContentFrom(cluster.log, start, foreign, token, seqno, content.value.value)
    ensures Accounted(cluster.log, |old(cluster.log)|, foreign, "get_nft_data", token.address, content)
    // the collection's answer is used as it is, or the check fails: a failed call is an error
    ensures content == Ok(None) <==> NoAnswer(cluster.log, |old(cluster.log)|, |old(cluster.log)|, "get_nft_data")
    ensures |old(session.activeWorkers)| == 1 ==>
              && AllSingle(cluster.log, |old(cluster.log)|)
              && Forgot(old(cluster.tables), cluster.tables, session.activeWorkers, id,
                        content.Ok? && content.value.Some?)
              && (ForgetsSucceed(cluster.log, |old(cluster.log)|) ==>
                    session.activeWorkers == old(session.activeWorkers))
  {
    content := AskContent(cluster, foreign, id, token, archival, session, base, start, seqno);
    if content.Err? || content.value.None? {
      return;
    }
    ghost var asked := cluster.log;
    var forgotten := ForgetContract(cluster, id, archival, session, base);
    if forgotten.Err? {
      content := Err(forgotten.error);
      HaltsIsAccounted(cluster.log, |asked|, |old(cluster.log)|, foreign, "get_nft_data", token.address, content);
      return;
    }
    ContentGrows(asked, cluster.log, start, start, foreign, token, seqno, content.value.value);
    if ForgetsSucceed(cluster.log, |old(cluster.log)|) {
      LaterForgetsSucceed(cluster.log, |old(cluster.log)|, |asked|);
    }
  }
}
