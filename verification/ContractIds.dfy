/** What requests do to the contracts that workers hold loaded.

    A smart contract loaded by a worker gets an id that only this worker knows.
    The log of a run records every selection of workers and every sending, so
    what a run did can be stated about its log. */
module ContractIds {
  import opened Results
  import opened WorkerPool

  type Stack = seq<string>

  datatype Call =
    | Load(address: string, block: Option<string>)
    | RunMethod(id: int, method_: string, args: Stack)
    | GetState(id: int)
    | Forget(id: int)
    | LookupBlock(seqno: nat)
  {
    /** Names a contract id that must be known where the call goes. */
    predicate UsesId() { RunMethod? || GetState? }
  }

  datatype Answer =
    | Loaded(id: int)
    | MethodResult(exitCode: int, stack: Stack)
    | AccountState(text: string)
    | Forgotten
    | Block(name: string)

  /** Servers answer a call with its own kind of answer, or fail. */
  predicate Fits(call: Call, a: Result<Answer>) {
    a.Ok? ==>
      match call
      case Load(_, _) => a.value.Loaded?
      case RunMethod(_, _, _) => a.value.MethodResult?
      case GetState(_) => a.value.AccountState?
      case Forget(_) => a.value.Forgotten?
      case LookupBlock(_) => a.value.Block?
  }

  datatype Entry =
    | Chosen(flags: seq<WorkerInfo>, options: RequestParameters, selection: Selection)
    | Sent(workers: seq<nat>, call: Call, answers: seq<Result<Answer>>, from: nat)
  {
    predicate Wf() { Sent? ==> from < |answers| == |workers| }

    /** The answer the caller got: that of one of the workers. */
    function Delivered(): Result<Answer>
      requires Sent? && from < |answers|
    {
      answers[from]
    }
  }

  type Tables = seq<set<int>>

  /** What one worker's answer does to the tables of loaded contracts. */
  function ApplyOne(tables: Tables, w: nat, call: Call, a: Result<Answer>): Tables {
    if w >= |tables| || a.Err? then tables
    else if call.Load? && a.value.Loaded? then tables[w := tables[w] + {a.value.id}]
    else if call.Forget? then tables[w := tables[w] - {call.id}]
    else tables
  }

  function ApplyAll(tables: Tables, workers: seq<nat>, call: Call, answers: seq<Result<Answer>>): Tables
    requires |workers| == |answers|
  {
    if workers == [] then tables
    else
      var n := |workers| - 1;
      ApplyOne(ApplyAll(tables, workers[..n], call, answers[..n]), workers[n], call, answers[n])
  }

  /** A worker issues an id it has not got in use. */
  predicate FreshIds(tables: Tables, workers: seq<nat>, call: Call, answers: seq<Result<Answer>>)
    requires |workers| == |answers|
  {
    workers == [] ||
    var n := |workers| - 1;
    && FreshIds(tables, workers[..n], call, answers[..n])
    && (call.Load? && answers[n].Ok? && answers[n].value.Loaded? ==>
          var before := ApplyAll(tables, workers[..n], call, answers[..n]);
          workers[n] < |before| ==> answers[n].value.id !in before[workers[n]])
  }

  lemma {:induction false} ApplyAllKeepsSize(
    tables: Tables, workers: seq<nat>, call: Call, answers: seq<Result<Answer>>)
    requires |workers| == |answers|
    ensures |ApplyAll(tables, workers, call, answers)| == |tables|
  {
    if workers != [] {
      ApplyAllKeepsSize(tables, workers[..|workers| - 1], call, answers[..|workers| - 1]);
    }
  }

  lemma {:induction false} OneMoreAnswer(
    tables: Tables, ws: seq<nat>, w: nat, call: Call, answers: seq<Result<Answer>>, a: Result<Answer>)
    requires |ws| == |answers| && FreshIds(tables, ws, call, answers) && w < |ApplyAll(tables, ws, call, answers)|
    requires call.Load? && a.Ok? && a.value.Loaded? ==> a.value.id !in ApplyAll(tables, ws, call, answers)[w]
    ensures FreshIds(tables, ws + [w], call, answers + [a])
    ensures ApplyAll(tables, ws + [w], call, answers + [a]) == ApplyOne(ApplyAll(tables, ws, call, answers), w, call, a)
  {
    assert (ws + [w])[..|ws|] == ws && (answers + [a])[..|ws|] == answers;
  }

  lemma {:induction false} OneAnswerApplied(tables: Tables, ws: seq<nat>, call: Call, answers: seq<Result<Answer>>)
    requires |ws| == |answers| == 1
    ensures ApplyAll(tables, ws, call, answers) == ApplyOne(tables, ws[0], call, answers[0])
    ensures FreshIds(tables, ws, call, answers) && call.Load? && answers[0].Ok? && answers[0].value.Loaded? ==>
              ws[0] < |tables| ==> answers[0].value.id !in tables[ws[0]]
  {
    assert ws[..0] == [] && answers[..0] == [];
  }

  /** With no worker twice in the list, each table changes with its own
      worker's answer only. */
  lemma {:induction false} EachTableByItsOwnAnswer(
    tables: Tables, ws: seq<nat>, call: Call, answers: seq<Result<Answer>>, w: nat)
    requires |ws| == |answers| && NoDuplicates(ws) && w < |tables|
    ensures |ApplyAll(tables, ws, call, answers)| == |tables|
    ensures w !in ws ==> ApplyAll(tables, ws, call, answers)[w] == tables[w]
    ensures forall i | 0 <= i < |ws| && ws[i] == w ::
              ApplyAll(tables, ws, call, answers)[w] == ApplyOne(tables, w, call, answers[i])[w]
  {
    if ws != [] {
      var n := |ws| - 1;
      assert forall i | 0 <= i < n :: ws[..n][i] == ws[i] && answers[..n][i] == answers[i];
      EachTableByItsOwnAnswer(tables, ws[..n], call, answers[..n], w);
      if w == ws[n] {
        assert w !in ws[..n];
      }
    }
  }

  lemma {:induction false} FreshIdIsNew(tables: Tables, ws: seq<nat>, call: Call, answers: seq<Result<Answer>>, i: nat)
    requires |ws| == |answers| && NoDuplicates(ws) && FreshIds(tables, ws, call, answers)
    requires i < |ws| && ws[i] < |tables| && call.Load? && answers[i].Ok? && answers[i].value.Loaded?
    ensures answers[i].value.id !in tables[ws[i]]
  {
    var n := |ws| - 1;
    EachTableByItsOwnAnswer(tables, ws[..n], call, answers[..n], ws[i]);
    if i < n {
      FreshIdIsNew(tables, ws[..n], call, answers[..n], i);
    } else {
      assert ws[i] !in ws[..n];
    }
  }

  /** Worker `i` is as before once `id` is forgotten: it issued no other id, and
      did not hold `id` for another contract. */
  predicate LeavesNothing(tables: Tables, w: nat, a: Result<Answer>, id: int)
    requires w < |tables|
  {
    (a.Ok? && a.value.Loaded? ==> a.value.id == id) && id !in tables[w]
  }

  /** Exactly when a load and a forget of the id it returned, both through the
      same workers, leave the tables as they were. */
  lemma {:induction false} LoadAndForgetRestoreExactlyWhen(
    tables: Tables, ws: seq<nat>, load: Call, answers: seq<Result<Answer>>, id: int, forgets: seq<Result<Answer>>)
    requires NoDuplicates(ws) && (forall i | 0 <= i < |ws| :: ws[i] < |tables|) && load.Load?
    requires |answers| == |ws| == |forgets| && FreshIds(tables, ws, load, answers)
    requires forall i | 0 <= i < |ws| :: forgets[i].Ok?
    ensures ApplyAll(ApplyAll(tables, ws, load, answers), ws, Forget(id), forgets) == tables
       <==> forall i | 0 <= i < |ws| :: LeavesNothing(tables, ws[i], answers[i], id)
  {
    var held := ApplyAll(tables, ws, load, answers);
    var left := ApplyAll(held, ws, Forget(id), forgets);
    ApplyAllKeepsSize(tables, ws, load, answers);
    ApplyAllKeepsSize(held, ws, Forget(id), forgets);
    forall i | 0 <= i < |ws|
      ensures left[ws[i]] == tables[ws[i]] <==> LeavesNothing(tables, ws[i], answers[i], id)
    {
      OneWorkerRestored(tables, ws, load, answers, id, forgets, i);
    }
    forall w: nat | w < |tables| && w !in ws
      ensures left[w] == tables[w]
    {
      EachTableByItsOwnAnswer(tables, ws, load, answers, w);
      EachTableByItsOwnAnswer(held, ws, Forget(id), forgets, w);
    }
    if forall i | 0 <= i < |ws| :: LeavesNothing(tables, ws[i], answers[i], id) {
      forall w: nat | w < |tables|
        ensures left[w] == tables[w]
      {
        if w in ws {
          var i :| 0 <= i < |ws| && ws[i] == w;
        }
      }
    }
  }

  lemma {:induction false} OneWorkerRestored(
    tables: Tables, ws: seq<nat>, load: Call, answers: seq<Result<Answer>>, id: int,
    forgets: seq<Result<Answer>>, i: nat)
    requires NoDuplicates(ws) && (forall i | 0 <= i < |ws| :: ws[i] < |tables|) && load.Load?
    requires |answers| == |ws| == |forgets| && FreshIds(tables, ws, load, answers)
    requires i < |ws| && forgets[i].Ok?
    ensures var left := ApplyAll(ApplyAll(tables, ws, load, answers), ws, Forget(id), forgets);
            && |left| == |tables|
            && (left[ws[i]] == tables[ws[i]] <==> LeavesNothing(tables, ws[i], answers[i], id))
  {
    var w := ws[i];
    var held := ApplyAll(tables, ws, load, answers);
    EachTableByItsOwnAnswer(tables, ws, load, answers, w);
    EachTableByItsOwnAnswer(held, ws, Forget(id), forgets, w);
    if answers[i].Ok? && answers[i].value.Loaded? {
      FreshIdIsNew(tables, ws, load, answers, i);
      var x := answers[i].value.id;
      assert (tables[w] + {x}) - {id} == tables[w] <==> x == id by {
        assert x in tables[w] + {x};
      }
    } else {
      assert tables[w] - {id} == tables[w] <==> id !in tables[w];
    }
  }

  /** A load that some of several workers answer leaves an id on each of them,
      but the caller learns and forgets only one: with two workers in the
      session the tables are not restored. */
  lemma {:induction false} TwoWorkerLoadLeavesAnIdBehind()
    ensures var loaded := ApplyAll([{}, {}], [0, 1], Load("a", None), [Ok(Loaded(7)), Ok(Loaded(8))]);
            && FreshIds([{}, {}], [0, 1], Load("a", None), [Ok(Loaded(7)), Ok(Loaded(8))])
            && ApplyAll(loaded, [0, 1], Forget(7), [Ok(Forgotten), Ok(Forgotten)]) == [{}, {8}]
  {
    var answers := [Ok(Loaded(7)), Ok(Loaded(8))];
    var call := Load("a", None);
    assert [0, 1][..1] == [0] && answers[..1] == [answers[0]] && [0][..0] == [] && [answers[0]][..0] == [];
    var none: set<int>, seven: set<int>, eight: set<int> := {}, {7}, {8};
    var empty: Tables := [none, none];
    assert none + seven == seven && none + eight == eight && seven - {7} == none && eight - {7} == eight;
    assert ApplyAll(empty, [], call, []) == empty;
    assert ApplyAll(empty, [0], call, [answers[0]]) == empty[0 := none + seven] == [seven, none];
    var loaded := ApplyAll(empty, [0, 1], call, answers);
    assert loaded == [seven, none][1 := none + eight] == [seven, eight];
    var forgets := [Ok(Forgotten), Ok(Forgotten)];
    assert forgets[..1] == [forgets[0]] && [forgets[0]][..0] == [];
    assert ApplyAll(loaded, [], Forget(7), []) == loaded;
    assert ApplyAll(loaded, [0], Forget(7), [forgets[0]]) == loaded[0 := seven - {7}] == [none, eight];
    assert [none, eight][1 := eight - {7}] == [none, eight];
  }

  lemma {:induction false} FreshIdsFromTables(
    tables: Tables, ws: seq<nat>, call: Call, answers: seq<Result<Answer>>)
    requires |ws| == |answers| && NoDuplicates(ws) && call.Load?
    requires forall i | 0 <= i < |ws| && ws[i] < |tables| && answers[i].Ok? && answers[i].value.Loaded? ::
               answers[i].value.id !in tables[ws[i]]
    ensures FreshIds(tables, ws, call, answers)
  {
    if ws != [] {
      var n := |ws| - 1;
      FreshIdsFromTables(tables, ws[..n], call, answers[..n]);
      ApplyAllKeepsSize(tables, ws[..n], call, answers[..n]);
      if ws[n] < |tables| {
        assert ws[n] !in ws[..n];
        EachTableByItsOwnAnswer(tables, ws[..n], call, answers[..n], ws[n]);
      }
    }
  }

  lemma {:induction false} AboveAll(ids: set<int>, floor: int) returns (x: int)
    ensures x > floor && forall y | y in ids :: y < x
  {
    if y :| y in ids {
      x := AboveAll(ids - {y}, floor);
      if x <= y {
        x := y + 1;
      }
      assert forall z | z in ids :: z == y || z in ids - {y};
    } else {
      x := floor + 1;
    }
  }

  /** A load that succeeds for the caller, who then has its id forgotten by the
      same workers, all of whom agree to it. */
  ghost predicate IsBehaviour(
    tables: Tables, ws: seq<nat>, load: Call, answers: seq<Result<Answer>>, from: nat, forgets: seq<Result<Answer>>)
  {
    && |answers| == |ws| == |forgets| && from < |ws| && FreshIds(tables, ws, load, answers)
    && answers[from].Ok? && answers[from].value.Loaded?
    && (forall i | 0 <= i < |ws| :: Fits(load, answers[i]) && forgets[i] == Ok(Forgotten))
  }

  ghost predicate GivesBack(
    tables: Tables, ws: seq<nat>, load: Call, answers: seq<Result<Answer>>, from: nat, forgets: seq<Result<Answer>>)
    requires IsBehaviour(tables, ws, load, answers, from, forgets)
  {
    ApplyAll(ApplyAll(tables, ws, load, answers), ws, Forget(answers[from].value.id), forgets) == tables
  }

  /** What a caller can see before the call: with one worker in the session every
      such load and forget restores the tables, with more of them not every one. */
  lemma {:induction false} AlwaysRestoredExactlyByOneWorker(tables: Tables, ws: seq<nat>, load: Call)
    requires NoDuplicates(ws) && ws != [] && (forall i | 0 <= i < |ws| :: ws[i] < |tables|) && load.Load?
    ensures (forall answers: seq<Result<Answer>>, from: nat, forgets: seq<Result<Answer>> |
               IsBehaviour(tables, ws, load, answers, from, forgets) ::
               GivesBack(tables, ws, load, answers, from, forgets)) <==> |ws| == 1
  {
    if |ws| == 1 {
      forall answers: seq<Result<Answer>>, from: nat, forgets: seq<Result<Answer>> |
        IsBehaviour(tables, ws, load, answers, from, forgets)
        ensures GivesBack(tables, ws, load, answers, from, forgets)
      {
        FreshIdIsNew(tables, ws, load, answers, 0);
        LoadAndForgetRestoreExactlyWhen(tables, ws, load, answers, answers[from].value.id, forgets);
      }
    } else {
      var answers, forgets := TwoIds(tables, ws, load);
      var id := answers[0].value.id;
      LoadAndForgetRestoreExactlyWhen(tables, ws, load, answers, id, forgets);
      assert !LeavesNothing(tables, ws[1], answers[1], id);
      assert !GivesBack(tables, ws, load, answers, 0, forgets);
    }
  }

  lemma {:induction false} TwoIds(tables: Tables, ws: seq<nat>, load: Call)
    returns (answers: seq<Result<Answer>>, forgets: seq<Result<Answer>>)
    requires NoDuplicates(ws) && |ws| > 1 && (forall i | 0 <= i < |ws| :: ws[i] < |tables|) && load.Load?
    ensures IsBehaviour(tables, ws, load, answers, 0, forgets)
    ensures answers[1].Ok? && answers[1].value.Loaded? && answers[1].value.id != answers[0].value.id
  {
    var first := AboveAll(tables[ws[0]], 0);
    var second := AboveAll(tables[ws[1]], first);
    var error: Result<Answer> := Err(Error(500, "failed"));
    answers := [Ok(Loaded(first)), Ok(Loaded(second))] + seq(|ws| - 2, i => error);
    forgets := seq(|ws|, i => Ok(Forgotten));
    FreshIdsFromTables(tables, ws, load, answers);
  }

  // ----- The tables as the log gives them -----

  function ApplyEntry(tables: Tables, e: Entry): Tables {
    if e.Sent? && e.Wf() then ApplyAll(tables, e.workers, e.call, e.answers) else tables
  }

  /** The tables after the entries from `base` on. */
  function Replay(tables: Tables, log: seq<Entry>, base: nat): Tables {
    if |log| <= base then tables else ApplyEntry(Replay(tables, log[..|log| - 1], base), log[|log| - 1])
  }

  function NothingLoaded(size: nat): Tables { seq(size, i => {}) }

  lemma {:induction false} ReplayKeepsSize(tables: Tables, log: seq<Entry>, base: nat)
    ensures |Replay(tables, log, base)| == |tables|
  {
    if |log| > base {
      var p, e := log[..|log| - 1], log[|log| - 1];
      ReplayKeepsSize(tables, p, base);
      if e.Sent? && e.Wf() {
        ApplyAllKeepsSize(Replay(tables, p, base), e.workers, e.call, e.answers);
      }
    }
  }

  lemma {:induction false} ReplaySnoc(tables: Tables, log: seq<Entry>, e: Entry, base: nat)
    requires base <= |log|
    ensures Replay(tables, log + [e], base) == ApplyEntry(Replay(tables, log, base), e)
  {
    assert (log + [e])[..|log|] == log;
  }

  lemma {:induction false} ReplayAppends(tables: Tables, log: seq<Entry>, longer: seq<Entry>, base: nat)
    requires log <= longer && base <= |log|
    ensures Replay(tables, longer, base) == Replay(Replay(tables, log, base), longer, |log|)
  {
    if log == longer {
    } else {
      assert log <= longer[..|longer| - 1];
      ReplayAppends(tables, log, longer[..|longer| - 1], base);
    }
  }

  /** Entry `k` puts `id` into the table of worker `w`, or takes it out. */
  ghost predicate Puts(log: seq<Entry>, k: int, w: nat, id: int) {
    && 0 <= k < |log| && log[k].Sent? && log[k].Wf() && log[k].call.Load?
    && exists i :: 0 <= i < |log[k].workers| && log[k].workers[i] == w && log[k].answers[i] == Ok(Loaded(id))
  }

  ghost predicate Takes(log: seq<Entry>, k: int, w: nat, id: int) {
    && 0 <= k < |log| && log[k].Sent? && log[k].Wf() && log[k].call == Forget(id)
    && exists i :: 0 <= i < |log[k].workers| && log[k].workers[i] == w && log[k].answers[i].Ok?
  }

  /** A load of `id` at worker `w` that no later forget of it there has undone. */
  ghost predicate LeftBehind(log: seq<Entry>, base: nat, w: nat, id: int) {
    exists k :: base <= k && Puts(log, k, w, id) && forall m | k < m < |log| :: !Takes(log, m, w, id)
  }

  ghost predicate Taken(log: seq<Entry>, base: nat, w: nat, id: int) {
    exists k :: base <= k && Takes(log, k, w, id)
  }

  /** One entry's effect on one id of one worker. */
  lemma {:induction false} AnswersPutAndTake(
    tables: Tables, ws: seq<nat>, call: Call, answers: seq<Result<Answer>>, w: nat, id: int)
    requires |ws| == |answers| && w < |tables|
    ensures |ApplyAll(tables, ws, call, answers)| == |tables|
    ensures id in ApplyAll(tables, ws, call, answers)[w]
       <==> || (call.Load? && exists i :: 0 <= i < |ws| && ws[i] == w && answers[i] == Ok(Loaded(id)))
            || (id in tables[w]
                && !(call == Forget(id) && exists i :: 0 <= i < |ws| && ws[i] == w && answers[i].Ok?))
  {
    if ws != [] {
      var n := |ws| - 1;
      AnswersPutAndTake(tables, ws[..n], call, answers[..n], w, id);
      assert forall i | 0 <= i < n :: ws[..n][i] == ws[i] && answers[..n][i] == answers[i];
    }
  }

  /** After a run a worker holds an id exactly when the run left it there, or it
      was there before and the run has not taken it. */
  lemma {:induction false} HeldAfterReplay(tables: Tables, log: seq<Entry>, base: nat, w: nat, id: int)
    requires w < |tables|
    ensures |Replay(tables, log, base)| == |tables|
    ensures id in Replay(tables, log, base)[w]
       <==> LeftBehind(log, base, w, id) || (id in tables[w] && !Taken(log, base, w, id))
  {
    ReplayKeepsSize(tables, log, base);
    if |log| > base {
      var n := |log| - 1;
      HeldAfterReplay(tables, log[..n], base, w, id);
      ReplayKeepsSize(tables, log[..n], base);
      EntryPutsAndTakes(Replay(tables, log[..n], base), log, w, id);
      LastEntryCounts(log, base, w, id);
    }
  }

  lemma {:induction false} EntryPutsAndTakes(tables: Tables, log: seq<Entry>, w: nat, id: int)
    requires log != [] && w < |tables|
    ensures var n := |log| - 1;
            && |ApplyEntry(tables, log[n])| == |tables|
            && (id in ApplyEntry(tables, log[n])[w]
                <==> Puts(log, n, w, id) || (id in tables[w] && !Takes(log, n, w, id)))
  {
    var e := log[|log| - 1];
    if e.Sent? && e.Wf() {
      AnswersPutAndTake(tables, e.workers, e.call, e.answers, w, id);
    }
  }

  lemma {:induction false} LastEntryCounts(log: seq<Entry>, base: nat, w: nat, id: int)
    requires |log| > base
    ensures var n := |log| - 1;
            && (LeftBehind(log, base, w, id)
                <==> Puts(log, n, w, id) || (LeftBehind(log[..n], base, w, id) && !Takes(log, n, w, id)))
            && (Taken(log, base, w, id) <==> Taken(log[..n], base, w, id) || Takes(log, n, w, id))
            && !(Puts(log, n, w, id) && Takes(log, n, w, id))
  {
    var n := |log| - 1;
    var p := log[..n];
    forall k | k < n
      ensures Puts(log, k, w, id) <==> Puts(p, k, w, id)
      ensures Takes(log, k, w, id) <==> Takes(p, k, w, id)
    {
    }
    if LeftBehind(p, base, w, id) && !Takes(log, n, w, id) {
      var k :| base <= k && Puts(p, k, w, id) && forall m | k < m < |p| :: !Takes(p, m, w, id);
      assert Puts(log, k, w, id);
    }
    if Taken(p, base, w, id) {
      var k :| base <= k && Takes(p, k, w, id);
      assert Takes(log, k, w, id);
    }
  }

  /** Nothing is left behind that was not there before, and nothing that was
      there before has been taken and not put back. */
  ghost predicate Balanced(tables: Tables, log: seq<Entry>, base: nat) {
    && (forall w: nat, id | w < |tables| && LeftBehind(log, base, w, id) :: id in tables[w])
    && (forall w: nat, id | w < |tables| && id in tables[w] && Taken(log, base, w, id) :: LeftBehind(log, base, w, id))
  }

  /** Load/forget conservation, and exactly when it holds, for any run. */
  lemma {:induction false} RestoredExactlyWhenBalanced(tables: Tables, log: seq<Entry>, base: nat)
    ensures Replay(tables, log, base) == tables <==> Balanced(tables, log, base)
  {
    var after := Replay(tables, log, base);
    ReplayKeepsSize(tables, log, base);
    forall w: nat, id | w < |tables|
      ensures id in after[w] <==> LeftBehind(log, base, w, id) || (id in tables[w] && !Taken(log, base, w, id))
    {
      HeldAfterReplay(tables, log, base, w, id);
    }
    if Balanced(tables, log, base) {
      forall w: nat | w < |tables|
        ensures after[w] == tables[w]
      {
        assert forall id :: id in after[w] <==> id in tables[w];
      }
    }
  }

  /** When the run neither takes nor issues again what was there before, it
      restores the tables exactly when each of its loads was undone, by a forget
      of its id at the worker that made it. */
  lemma {:induction false} RestoredExactlyWhenLoadsAreUndone(tables: Tables, log: seq<Entry>, base: nat)
    requires forall w: nat, id | w < |tables| && id in tables[w] ::
               !Taken(log, base, w, id) && !LeftBehind(log, base, w, id)
    ensures Replay(tables, log, base) == tables
       <==> forall w: nat, id | w < |tables| :: !LeftBehind(log, base, w, id)
  {
    RestoredExactlyWhenBalanced(tables, log, base);
  }

  /** A load at one worker and a forget of its id at one worker: the tables are
      restored exactly when it is the same worker. At another worker the forget
      leaves the id where it is, and takes an id of the same number that another
      caller may have there. */
  lemma {:induction false} ForgetElsewhereTakesAnothersId(tables: Tables, issuer: nat, other: nat, id: int)
    requires issuer < |tables| && other < |tables| && id !in tables[issuer]
    ensures var held := tables[issuer := tables[issuer] + {id}];
            var left := held[other := held[other] - {id}];
            && held != tables
            && (left == tables <==> other == issuer)
            && (other != issuer ==> id in left[issuer] && id !in left[other])
  {
    var held := tables[issuer := tables[issuer] + {id}];
    var left := held[other := held[other] - {id}];
    assert id in held[issuer];
    if other == issuer {
      assert (tables[issuer] + {id}) - {id} == tables[issuer];
      assert left == tables;
    } else {
      assert id in left[issuer];
    }
  }
}
