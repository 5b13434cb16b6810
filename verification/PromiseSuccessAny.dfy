/** One promise shared by several workers (tonlib-multiclient/promise.h).

    `get_promise` hands out sub-promises and counts them; a sub-promise is
    answered under the control block's mutex. An `Issue` only adds one to the
    counter, so it commutes with everything in an answer except the decrement,
    and each of the two operations is one atomic step of a run. */
module PromiseSuccessAny {
  import opened Results
  import opened Sets

  /** A `td::Promise` is one-shot: settling it again does nothing. */
  datatype Promise<T> = Pending | Settled(result: Result<T>) {
    function Settle(r: Result<T>): Promise<T> {
      if Settled? then this else Settled(r)
    }
  }

  datatype Event<T> = Issue | Answer(sub: nat, result: Result<T>)

  datatype State<T> = State(promise: Promise<T>, pendingCount: int)

  function Step<T>(s: State<T>, e: Event<T>): State<T> {
    match e
    case Issue => s.(pendingCount := s.pendingCount + 1)
    case Answer(_, Ok(v)) => State(s.promise.Settle(Ok(v)), s.pendingCount - 1)
    case Answer(_, Err(error)) =>
      State(if s.pendingCount <= 1 then s.promise.Settle(Err(error)) else s.promise, s.pendingCount - 1)
  }

  function Run<T>(trace: seq<Event<T>>): State<T> {
    if trace == [] then State(Pending, 0) else Step(Run(trace[..|trace| - 1]), trace[|trace| - 1])
  }

  /** The control block itself, with the two operations that change it. */
  class ControlBlock<T> {
    var promise: Promise<T>
    var pendingCount: int

    ghost function View(): State<T>
      reads this
    {
      State(promise, pendingCount)
    }

    constructor ()
      ensures View() == Run([])
    {
      promise, pendingCount := Pending, 0;
    }

    method GetPromise()
      modifies this
      ensures View() == Step(old(View()), Issue)
    {
      pendingCount := pendingCount + 1;
    }

    method AnswerSub(sub: nat, result: Result<T>)
      modifies this
      ensures View() == Step(old(View()), Answer(sub, result))
    {
      var before := pendingCount;
      pendingCount := pendingCount - 1;
      if result.Err? {
        if before <= 1 {
          promise := promise.Settle(Err(result.error));
        }
        return;
      }
      promise := promise.Settle(Ok(result.value));
    }
  }

  // ----- What a run is about, without the counter -----

  function Issued<T>(trace: seq<Event<T>>): nat {
    if trace == [] then 0
    else Issued(trace[..|trace| - 1]) + if trace[|trace| - 1].Issue? then 1 else 0
  }

  ghost predicate FailedAt<T(!new)>(trace: seq<Event<T>>, k: int, sub: nat) {
    0 <= k < |trace| && trace[k].Answer? && trace[k].sub == sub && trace[k].result.Err?
  }

  ghost predicate Failed<T(!new)>(trace: seq<Event<T>>, sub: nat) {
    exists k :: FailedAt(trace, k, sub)
  }

  function Answered<T>(trace: seq<Event<T>>): set<nat> {
    if trace == [] then {}
    else Answered(trace[..|trace| - 1]) + if trace[|trace| - 1].Answer? then {trace[|trace| - 1].sub} else {}
  }

  ghost predicate AnsweredAt<T(!new)>(trace: seq<Event<T>>, k: int, sub: nat) {
    0 <= k < |trace| && trace[k].Answer? && trace[k].sub == sub
  }

  lemma {:induction false} AnsweredMeansSomeAnswer<T(!new)>(trace: seq<Event<T>>, sub: nat)
    ensures sub in Answered(trace) <==> exists k :: AnsweredAt(trace, k, sub)
  {
    if trace == [] {
    } else {
      var n := |trace| - 1;
      AnsweredMeansSomeAnswer(trace[..n], sub);
      if k :| AnsweredAt(trace[..n], k, sub) {
        assert AnsweredAt(trace, k, sub);
      }
      if k :| AnsweredAt(trace, k, sub) {
        if k < n { assert AnsweredAt(trace[..n], k, sub); }
      }
      if trace[n].Answer? && trace[n].sub == sub {
        assert AnsweredAt(trace, n, sub);
      }
    }
  }

  /** Sub-promises are answered after they are issued, and only once each. */
  ghost predicate WellFormed<T(!new)>(trace: seq<Event<T>>) {
    && (forall k | 0 <= k < |trace| && trace[k].Answer? :: trace[k].sub < Issued(trace[..k]))
    && (forall j, k | 0 <= j < k < |trace| && trace[j].Answer? && trace[k].Answer? :: trace[j].sub != trace[k].sub)
  }

  /** At least one sub-promise is out, and every one that is out has failed. */
  ghost predicate AllFailed<T(!new)>(trace: seq<Event<T>>) {
    && Issued(trace) > 0
    && forall sub | 0 <= sub < Issued(trace) :: Failed(trace, sub)
  }

  /** Event `k` fixes the outcome: a success, or the failure that leaves no
      issued sub-promise unfailed. */
  ghost predicate Decides<T(!new)>(trace: seq<Event<T>>, k: int) {
    0 <= k < |trace| && trace[k].Answer? && (trace[k].result.Ok? || AllFailed(trace[..k + 1]))
  }

  ghost predicate FirstDecides<T(!new)>(trace: seq<Event<T>>, k: int) {
    Decides(trace, k) && forall j | 0 <= j < k :: !Decides(trace, j)
  }

  // ----- Counting -----

  function Below(n: nat): (s: set<nat>)
    ensures |s| == n
    ensures forall i :: i in s <==> 0 <= i < n
  {
    if n == 0 then {} else Below(n - 1) + {n - 1}
  }

  lemma {:induction false} SubsetOfSameSizeIsAll(s: set<nat>, n: nat)
    requires forall i | i in s :: i < n
    ensures |s| <= n
    ensures |s| == n <==> s == Below(n)
  {
    assert s <= Below(n);
    SubsetSize(s, Below(n));
  }

  lemma {:induction false} PrefixWellFormed<T(!new)>(trace: seq<Event<T>>, n: nat)
    requires WellFormed(trace) && n <= |trace|
    ensures WellFormed(trace[..n])
  {
    var p := trace[..n];
    forall k | 0 <= k < |p| && p[k].Answer?
      ensures p[k].sub < Issued(p[..k])
    {
      assert p[..k] == trace[..k];
    }
  }

  lemma {:induction false} IssuedMonotone<T>(trace: seq<Event<T>>, n: nat)
    requires n <= |trace|
    ensures Issued(trace[..n]) <= Issued(trace)
  {
    if n < |trace| {
      var p := trace[..|trace| - 1];
      IssuedMonotone(p, n);
      assert p[..n] == trace[..n];
    } else {
      assert trace[..n] == trace;
    }
  }

  ghost predicate Counted<T(!new)>(trace: seq<Event<T>>) {
    && (forall sub | sub in Answered(trace) :: sub < Issued(trace))
    && Run(trace).pendingCount == Issued(trace) - |Answered(trace)| >= 0
  }

  /** The counter is always the number of sub-promises issued and not yet
      answered; in particular it never becomes negative. */
  lemma {:induction false} PendingIsIssuedMinusAnswered<T(!new)>(trace: seq<Event<T>>)
    requires WellFormed(trace)
    ensures forall sub | sub in Answered(trace) :: sub < Issued(trace)
    ensures Run(trace).pendingCount == Issued(trace) - |Answered(trace)| >= 0
  {
    if trace == [] {
    } else {
      var n := |trace| - 1;
      PrefixWellFormed(trace, n);
      PendingIsIssuedMinusAnswered(trace[..n]);
      var e := trace[n];
      if e.Answer? {
        AnsweredMeansSomeAnswer(trace[..n], e.sub);
        assert e.sub !in Answered(trace[..n]);
      }
      CountedStep(trace);
    }
  }

  lemma {:induction false} CountedStep<T(!new)>(trace: seq<Event<T>>)
    requires trace != [] && Counted(trace[..|trace| - 1])
    requires var p, e := trace[..|trace| - 1], trace[|trace| - 1];
             e.Answer? ==> e.sub < Issued(p) && e.sub !in Answered(p)
    ensures Counted(trace)
  {
    SubsetOfSameSizeIsAll(Answered(trace), Issued(trace));
  }

  // ----- The outcome -----

  lemma {:induction false} DecidesInPrefix<T(!new)>(trace: seq<Event<T>>, n: nat, k: nat)
    requires k < n <= |trace|
    ensures Decides(trace, k) <==> Decides(trace[..n], k)
  {
    assert trace[..n][..k + 1] == trace[..k + 1];
  }

  /** Without a success so far, the counter test `pending_count <= 1` in an
      error answer is exactly "everything issued so far has now failed". */
  lemma {:induction false} LastFailureTest<T(!new)>(trace: seq<Event<T>>)
    requires WellFormed(trace) && trace != []
    requires trace[|trace| - 1].Answer?
    requires forall k | 0 <= k < |trace| && trace[k].Answer? :: trace[k].result.Err?
    ensures Run(trace[..|trace| - 1]).pendingCount <= 1 <==> AllFailed(trace)
  {
    var p, e := trace[..|trace| - 1], trace[|trace| - 1];
    assert trace == p + [e];
    PendingIsIssuedMinusAnswered(trace);
    SubsetOfSameSizeIsAll(Answered(trace), Issued(trace));
    assert Run(trace).pendingCount == Run(p).pendingCount - 1;
    if Answered(trace) == Below(Issued(trace)) {
      forall sub | 0 <= sub < Issued(trace)
        ensures Failed(trace, sub)
      {
        AnsweredMeansSomeAnswer(trace, sub);
        var k :| AnsweredAt(trace, k, sub);
        assert FailedAt(trace, k, sub);
      }
      assert e.sub in Answered(trace);
    }
    if AllFailed(trace) {
      forall sub: nat | sub < Issued(trace)
        ensures sub in Answered(trace)
      {
        assert Failed(trace, sub);
        var k :| FailedAt(trace, k, sub);
        AnsweredMeansSomeAnswer(trace, sub);
        assert AnsweredAt(trace, k, sub);
      }
      assert Answered(trace) == Below(Issued(trace));
    }
  }

  ghost predicate OutcomeKnown<T(!new)>(trace: seq<Event<T>>) {
    && (Run(trace).promise.Pending? <==> forall k :: !Decides(trace, k))
    && (forall k | FirstDecides(trace, k) :: Run(trace).promise == Settled(trace[k].result))
  }

  /** On every interleaving: the shared promise is still pending exactly when
      no event has decided, and otherwise it carries the answer of the first
      deciding event. */
  lemma {:induction false} OutcomeIsFirstDecision<T(!new)>(trace: seq<Event<T>>)
    requires WellFormed(trace)
    ensures Run(trace).promise.Pending? <==> forall k :: !Decides(trace, k)
    ensures forall k | FirstDecides(trace, k) :: Run(trace).promise == Settled(trace[k].result)
  {
    if trace == [] {
      return;
    }
    var n := |trace| - 1;
    var p := trace[..n];
    PrefixWellFormed(trace, n);
    OutcomeIsFirstDecision(p);
    forall k | 0 <= k < n
      ensures Decides(trace, k) <==> Decides(p, k)
    {
      DecidesInPrefix(trace, n, k);
    }
    if k :| Decides(p, k) {
      OutcomeKept(trace, k);
    } else {
      OutcomeByLastEvent(trace);
    }
  }

  lemma {:induction false} OutcomeKept<T(!new)>(trace: seq<Event<T>>, k: int)
    requires trace != [] && OutcomeKnown(trace[..|trace| - 1]) && Decides(trace[..|trace| - 1], k)
    requires forall j | 0 <= j < |trace| - 1 :: Decides(trace, j) <==> Decides(trace[..|trace| - 1], j)
    ensures OutcomeKnown(trace)
  {
    var p := trace[..|trace| - 1];
    var first := Earliest(p, k);
    assert Run(p).promise == Settled(p[first].result) && Decides(trace, first);
    assert forall other | FirstDecides(trace, other) :: other == first;
  }

  lemma {:induction false} OutcomeByLastEvent<T(!new)>(trace: seq<Event<T>>)
    requires WellFormed(trace)
    requires trace != [] && OutcomeKnown(trace[..|trace| - 1]) && Run(trace[..|trace| - 1]).promise.Pending?
    requires forall j | 0 <= j < |trace| - 1 :: !Decides(trace, j)
    ensures OutcomeKnown(trace)
  {
    var n := |trace| - 1;
    assert trace[..n + 1] == trace;
    forall k | 0 <= k < n && trace[k].Answer?
      ensures trace[k].result.Err?
    {
      assert !Decides(trace, k);
    }
    if trace[n].Answer? && trace[n].result.Err? {
      LastFailureTest(trace);
    }
    assert Decides(trace, n) <==> Run(trace).promise.Settled?;
    forall k | Decides(trace, k)
      ensures k == n
    {
    }
  }

  lemma {:induction false} Earliest<T(!new)>(trace: seq<Event<T>>, k: nat) returns (first: nat)
    requires Decides(trace, k)
    ensures FirstDecides(trace, first) && first <= k
  {
    first := k;
    if j :| 0 <= j < k && Decides(trace, j) {
      first := Earliest(trace, j);
    }
  }

  /** An error reaches the caller exactly when some prefix of the run had at
      least one sub-promise out and all of those failed. */
  lemma {:induction false} ErrorIffSomePrefixAllFailed<T(!new)>(trace: seq<Event<T>>)
    requires WellFormed(trace)
    ensures (Run(trace).promise.Settled? && Run(trace).promise.result.Err?)
      <==> exists n :: 0 <= n <= |trace| && AllFailed(trace[..n])
  {
    OutcomeIsFirstDecision(trace);
    if Run(trace).promise.Settled? {
      var k :| Decides(trace, k);
      var first := Earliest(trace, k);
      if trace[first].result.Err? {
        assert AllFailed(trace[..first + 1]);
      }
    }
    if n :| 0 <= n <= |trace| && AllFailed(trace[..n]) {
      AllFailedPrefixDecides(trace, n);
    }
  }

  lemma {:induction false} AllFailedPrefixDecides<T(!new)>(trace: seq<Event<T>>, n: nat)
    requires WellFormed(trace) && n <= |trace| && AllFailed(trace[..n])
    ensures exists k :: FirstDecides(trace, k) && trace[k].result.Err?
  {
    var p := trace[..n];
    var last := n - 1;
    assert p[..last] == trace[..last];
    if AllFailed(p[..last]) {
      AllFailedPrefixDecides(trace, last);
      return;
    }
    if p[last].Issue? {
      NewestSubIsOpen(trace, last);
      assert false;
    } else if p[last].result.Ok? {
      SuccessFailsNothing(p);
      assert false;
    }
    assert trace[..last + 1] == p && Decides(trace, last);
    var first := Earliest(trace, last);
    if trace[first].result.Ok? {
      SucceededIsNotFailed(trace, first, n);
      assert false;
    }
  }

  lemma {:induction false} SuccessFailsNothing<T(!new)>(trace: seq<Event<T>>)
    requires AllFailed(trace) && trace[|trace| - 1].Answer? && trace[|trace| - 1].result.Ok?
    ensures AllFailed(trace[..|trace| - 1])
  {
    var p := trace[..|trace| - 1];
    forall sub | 0 <= sub < Issued(p)
      ensures Failed(p, sub)
    {
      assert Failed(trace, sub);
      var k :| FailedAt(trace, k, sub);
      assert FailedAt(p, k, sub);
    }
  }

  lemma {:induction false} NewestSubIsOpen<T(!new)>(trace: seq<Event<T>>, last: nat)
    requires WellFormed(trace) && last < |trace| && trace[last].Issue?
    ensures !Failed(trace[..last + 1], Issued(trace[..last]))
  {
    forall k | 0 <= k < last && trace[k].Answer?
      ensures trace[k].sub < Issued(trace[..last])
    {
      IssuedMonotone(trace[..last], k);
      assert trace[..last][..k] == trace[..k];
    }
  }

  lemma {:induction false} SucceededIsNotFailed<T(!new)>(trace: seq<Event<T>>, k: nat, n: nat)
    requires WellFormed(trace) && k < n <= |trace| && trace[k].Answer? && trace[k].result.Ok?
    ensures trace[k].sub < Issued(trace[..n]) && !Failed(trace[..n], trace[k].sub)
  {
    assert trace[..n][..k] == trace[..k];
    IssuedMonotone(trace[..n], k);
    forall j
      ensures !FailedAt(trace[..n], j, trace[k].sub)
    {
    }
  }

  ghost predicate FailedUpTo<T(!new)>(trace: seq<Event<T>>, last: nat) {
    forall sub | 0 <= sub <= last :: Failed(trace, sub)
  }

  /** An error that reaches the caller comes after the failure of every
      sub-promise issued before the one that gave it. */
  lemma {:induction false} EarlierSubsFailedToo<T(!new)>(trace: seq<Event<T>>)
    requires WellFormed(trace) && Run(trace).promise.Settled? && Run(trace).promise.result.Err?
    ensures exists k ::
              && FirstDecides(trace, k) && Run(trace).promise == Settled(trace[k].result)
              && FailedUpTo(trace[..k + 1], trace[k].sub)
  {
    var first := FirstDecision(trace);
    IssuedMonotone(trace[..first + 1], first);
    assert trace[..first + 1][..first] == trace[..first];
    assert AllFailed(trace[..first + 1]);
  }

  /** Once at least one sub-promise is issued and all are answered, the
      caller has its result. */
  lemma {:induction false} CompleteRunIsSettled<T(!new)>(trace: seq<Event<T>>)
    requires WellFormed(trace) && Issued(trace) > 0 && Answered(trace) == Below(Issued(trace))
    ensures Run(trace).promise.Settled?
  {
    OutcomeIsFirstDecision(trace);
    if Run(trace).promise.Pending? {
      forall sub | 0 <= sub < Issued(trace)
        ensures Failed(trace, sub)
      {
        AnsweredMeansSomeAnswer(trace, sub);
        var k :| AnsweredAt(trace, k, sub);
        assert !Decides(trace, k);
        assert FailedAt(trace, k, sub);
      }
      assert trace[..|trace|] == trace && AllFailed(trace[..|trace|]);
      ErrorIffSomePrefixAllFailed(trace);
    }
  }

  /** The promise is settled at most once: whatever follows, the result stays. */
  lemma {:induction false} SettledStays<T(!new)>(trace: seq<Event<T>>, n: nat)
    requires n <= |trace| && Run(trace[..n]).promise.Settled?
    ensures Run(trace).promise == Run(trace[..n]).promise
  {
    if n < |trace| {
      var p := trace[..|trace| - 1];
      assert p[..n] == trace[..n];
      SettledStays(p, n);
    } else {
      assert trace[..n] == trace;
    }
  }

  // ----- The plain form: every issue before every answer -----

  ghost predicate IssuesFirst<T(!new)>(trace: seq<Event<T>>, n: nat) {
    n <= |trace| && forall k | 0 <= k < |trace| :: trace[k].Issue? <==> k < n
  }

  ghost predicate AllErrors<T(!new)>(trace: seq<Event<T>>) {
    forall k | 0 <= k < |trace| && trace[k].Answer? :: trace[k].result.Err?
  }

  ghost predicate FirstSuccess<T(!new)>(trace: seq<Event<T>>, k: int) {
    && 0 <= k < |trace| && trace[k].Answer? && trace[k].result.Ok?
    && forall j | 0 <= j < k && trace[j].Answer? :: trace[j].result.Err?
  }

  lemma {:induction false} IssuedOfIssuesFirst<T(!new)>(trace: seq<Event<T>>, n: nat)
    requires IssuesFirst(trace, n)
    ensures Issued(trace) == n
  {
    if trace == [] {
    } else if n == |trace| {
      IssuedOfIssuesFirst(trace[..|trace| - 1], n - 1);
    } else {
      IssuedOfIssuesFirst(trace[..|trace| - 1], n);
    }
  }

  /** When all issues come before all answers, the first success wins, and an
      error is delivered only if every sub-promise failed; it is then the error
      of the last answer. */
  lemma {:induction false} IssuesFirstMeansAnySuccessWins<T(!new)>(trace: seq<Event<T>>, n: nat)
    requires WellFormed(trace) && IssuesFirst(trace, n) && n > 0 && Answered(trace) == Below(n)
    ensures forall k | FirstSuccess(trace, k) :: Run(trace).promise == Settled(trace[k].result)
    ensures AllErrors(trace) <==> Run(trace).promise.Settled? && Run(trace).promise.result.Err?
    ensures AllErrors(trace) ==>
              trace[|trace| - 1].Answer? && Run(trace).promise == Settled(trace[|trace| - 1].result)
  {
    IssuedOfIssuesFirst(trace, n);
    CompleteRunIsSettled(trace);
    var first := FirstDecision(trace);
    forall k | FirstSuccess(trace, k)
      ensures k == first
    {
      FirstSuccessDecides(trace, n, k, first);
    }
    if trace[first].result.Err? {
      ErrorDecidesAtTheEnd(trace, n, first);
      AllBeforeAreErrors(trace, first);
    }
  }

  /** The deciding event of a settled run. */
  lemma {:induction false} FirstDecision<T(!new)>(trace: seq<Event<T>>) returns (first: nat)
    requires WellFormed(trace) && Run(trace).promise.Settled?
    ensures FirstDecides(trace, first) && Run(trace).promise == Settled(trace[first].result)
  {
    OutcomeIsFirstDecision(trace);
    var k :| Decides(trace, k);
    first := Earliest(trace, k);
  }

  lemma {:induction false} ErrorDecidesAtTheEnd<T(!new)>(trace: seq<Event<T>>, n: nat, k: nat)
    requires WellFormed(trace) && IssuesFirst(trace, n) && n > 0
    requires Decides(trace, k) && trace[k].result.Err?
    ensures k == |trace| - 1
  {
    IssuedOfIssuesFirst(trace, n);
    AllFailedPrefixIsWhole(trace, n, k + 1);
  }

  lemma {:induction false} AllBeforeAreErrors<T(!new)>(trace: seq<Event<T>>, first: nat)
    requires FirstDecides(trace, first) && first == |trace| - 1 && trace[first].result.Err?
    ensures AllErrors(trace)
  {
    forall k | 0 <= k < first && trace[k].Answer?
      ensures trace[k].result.Err?
    {
      assert !Decides(trace, k);
    }
  }

  lemma {:induction false} FirstSuccessDecides<T(!new)>(trace: seq<Event<T>>, n: nat, k: nat, first: nat)
    requires WellFormed(trace) && IssuesFirst(trace, n) && n > 0
    requires FirstSuccess(trace, k) && FirstDecides(trace, first)
    ensures k == first
  {
    assert Decides(trace, k);
    if first < k {
      ErrorDecidesAtTheEnd(trace, n, first);
    }
  }

  lemma {:induction false} AllFailedPrefixIsWhole<T(!new)>(trace: seq<Event<T>>, n: nat, m: nat)
    requires WellFormed(trace) && IssuesFirst(trace, n) && n > 0 && n < m <= |trace| && AllFailed(trace[..m])
    requires Issued(trace) == n
    ensures m == |trace|
  {
    IssuedOfIssuesFirst(trace[..m], n);
    if m < |trace| {
      OpenSubIsNotFailed(trace, m);
    }
  }

  lemma {:induction false} OpenSubIsNotFailed<T(!new)>(trace: seq<Event<T>>, m: nat)
    requires WellFormed(trace) && m < |trace| && trace[m].Answer?
    ensures trace[m].sub < Issued(trace) && !Failed(trace[..m], trace[m].sub)
  {
    IssuedMonotone(trace, m);
    forall k
      ensures !FailedAt(trace[..m], k, trace[m].sub)
    {
    }
  }

  /** "Any success wins" is not a theorem of the code: when the first worker
      fails before the second sub-promise is issued, the caller gets that error
      although the second worker succeeds. */
  lemma {:induction false} EarlyFailureBeatsLaterSuccess<T(!new)>(error: Error, value: T)
    ensures var trace := [Issue, Answer(0, Err(error)), Issue, Answer(1, Ok(value))];
            WellFormed(trace) && Answered(trace) == Below(Issued(trace)) && Run(trace).promise == Settled(Err(error))
  {
    var none: seq<Event<T>>, fails: Event<T>, succeeds: Event<T> := [], Answer(0, Err(error)), Answer(1, Ok(value));
    var one, two, three := none + [Issue], none + [Issue] + [fails], none + [Issue] + [fails] + [Issue];
    Snoc(none, Issue);
    Snoc(one, fails);
    Snoc(two, Issue);
    Snoc(three, succeeds);
    var trace := [Issue, fails, Issue, succeeds];
    assert trace == three + [succeeds];
    assert Issued(trace) == 2 && Answered(trace) == {0, 1} == Below(2);
    assert trace[..1] == one && trace[..3] == three;
    TwoAnswers(trace);
  }

  lemma {:induction false} TwoAnswers<T(!new)>(trace: seq<Event<T>>)
    requires |trace| == 4 && trace[0].Issue? && trace[1].Answer? && trace[2].Issue? && trace[3].Answer?
    requires trace[1].sub == 0 < Issued(trace[..1]) && trace[3].sub == 1 < Issued(trace[..3])
    ensures WellFormed(trace)
  {
    forall k | 0 <= k < |trace| && trace[k].Answer?
      ensures k == 1 || k == 3
    {
    }
  }

  lemma {:induction false} Snoc<T>(p: seq<Event<T>>, e: Event<T>)
    ensures Run(p + [e]) == Step(Run(p), e)
    ensures Issued(p + [e]) == Issued(p) + if e.Issue? then 1 else 0
    ensures Answered(p + [e]) == Answered(p) + if e.Answer? then {e.sub} else {}
  {
    assert (p + [e])[..|p|] == p;
  }
}
