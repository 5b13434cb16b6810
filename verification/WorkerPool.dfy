/** The workers the actor knows, request parameters, sessions, and the choice
    of workers for a request (tonlib-multiclient/request.h, session.h and
    `select_workers`, `get_session_impl`, `get_consensus_block` in
    multi_client_actor.cpp). Random choices are arbitrary choices. */
module WorkerPool {
  import opened Results

  datatype WorkerInfo = WorkerInfo(
    isAlive: bool,
    isArchival: bool,
    lastMcSeqno: int,
    isWaitingForUpdate: bool,
    checkRetryCount: nat,
    checkRetryAfter: Option<real>)

  datatype RequestMode = Single | Broadcast | Multiple

  datatype RequestParameters = RequestParameters(
    mode: RequestMode,
    liteServerIndexes: Option<seq<nat>>,
    clientsNumber: Option<nat>,
    archival: Option<bool>)
  {
    predicate AreValid() {
      match mode
      case Single => liteServerIndexes.None? || |liteServerIndexes.value| == 1
      case Multiple =>
        !(clientsNumber.Some? && liteServerIndexes.Some?) && (clientsNumber.Some? || liteServerIndexes.Some?)
      case Broadcast => true
    }
  }

  function SingleMode(archival: Option<bool>): RequestParameters {
    RequestParameters(Single, None, None, archival)
  }

  /** The workers a caller is bound to; shared by reference and rebound in place. */
  class Session {
    var activeWorkers: seq<nat>

    constructor (workers: seq<nat>)
      ensures activeWorkers == workers
    {
      activeWorkers := workers;
    }

    method SetActiveWorkers(workers: seq<nat>)
      modifies this
      ensures activeWorkers == workers
    {
      activeWorkers := workers;
    }
  }

  predicate Eligible(workers: seq<WorkerInfo>, archival: Option<bool>, i: int) {
    0 <= i < |workers| && workers[i].isAlive && (archival.Some? ==> workers[i].isArchival == archival.value)
  }

  ghost predicate NoDuplicates(s: seq<nat>) {
    forall i, j | 0 <= i < j < |s| :: s[i] != s[j]
  }

  ghost predicate Increasing(s: seq<nat>) {
    forall i, j | 0 <= i < j < |s| :: s[i] < s[j]
  }

  /** How many workers are eligible. */
  function EligibleCount(workers: seq<WorkerInfo>, archival: Option<bool>): nat {
    |set i | 0 <= i < |workers| && Eligible(workers, archival, i)|
  }

  /** What a selection comes to: a list of workers, possibly empty, or the
      exception of reading an absent `clients_number`. */
  datatype Selection = Selected(workers: seq<nat>) | Thrown

  /** The contract of a selection, by the meaning of the request's mode. */
  ghost predicate Honours(workers: seq<WorkerInfo>, options: RequestParameters, s: Selection) {
    && (s.Thrown? <==>
          && options.AreValid() && options.mode.Multiple? && options.liteServerIndexes.Some?
          && exists i :: Eligible(workers, options.archival, i))
    && (s.Selected? ==>
          && NoDuplicates(s.workers)
          && (forall i | i in s.workers :: Eligible(workers, options.archival, i))
          && (!options.AreValid() ==> s.workers == [])
          && (options.AreValid() ==>
                match options.mode
                case Broadcast =>
                  Increasing(s.workers) && forall i | Eligible(workers, options.archival, i) :: i in s.workers
                case Single =>
                  && |s.workers| <= 1
                  && (options.liteServerIndexes.Some? ==>
                        var i := options.liteServerIndexes.value[0];
                        s.workers == if Eligible(workers, options.archival, i) then [i] else [])
                  && (options.liteServerIndexes.None? ==>
                        (s.workers == [] <==> forall i :: !Eligible(workers, options.archival, i)))
                case Multiple =>
                  options.clientsNumber.Some? ==>
                    var eligible := EligibleCount(workers, options.archival);
                    |s.workers|
                    == if options.clientsNumber.value < eligible then options.clientsNumber.value else eligible))
  }

  function Elements(s: seq<nat>): set<nat> {
    set i | 0 <= i < |s| :: s[i]
  }

  lemma {:induction false} NoDuplicatesSize(s: seq<nat>)
    requires NoDuplicates(s)
    ensures |Elements(s)| == |s|
  {
    if s == [] {
      assert Elements(s) == {};
    } else {
      var n := |s| - 1;
      NoDuplicatesSize(s[..n]);
      assert Elements(s) == Elements(s[..n]) + {s[n]};
      assert s[n] !in Elements(s[..n]);
    }
  }

  lemma {:induction false} NoDuplicatesByCount(s: seq<nat>)
    ensures NoDuplicates(s) <==> forall x :: multiset(s)[x] <= 1
  {
    if s == [] {
    } else {
      var n := |s| - 1;
      var p := s[..n];
      NoDuplicatesByCount(p);
      assert s == p + [s[n]];
      assert multiset(s) == multiset(p) + multiset{s[n]};
      if NoDuplicates(s) {
        assert s[n] !in p;
        assert multiset(p)[s[n]] == 0;
      } else if NoDuplicates(p) {
        var i :| 0 <= i < n && s[i] == s[n];
        assert p[i] == s[n] && s[n] in multiset(p);
        assert multiset(s)[s[n]] >= 2;
      } else {
        var x :| multiset(p)[x] > 1;
        assert multiset(s)[x] > 1;
      }
    }
  }

  /** `std::shuffle`: some permutation, made by swaps in place. */
  method Shuffle(a: array<nat>)
    modifies a
    ensures multiset(a[..]) == multiset(old(a[..]))
  {
    var i := a.Length;
    while i > 1
      invariant i <= a.Length
      invariant multiset(a[..]) == multiset(old(a[..]))
    {
      i := i - 1;
      var j :| 0 <= j <= i;
      a[i], a[j] := a[j], a[i];
    }
  }

  method ShuffledPrefix(s: seq<nat>, n: nat) returns (r: seq<nat>)
    requires NoDuplicates(s)
    ensures NoDuplicates(r) && |r| == if n < |s| then n else |s|
    ensures forall x | x in r :: x in s
  {
    var a := new nat[|s|](i requires 0 <= i < |s| => s[i]);
    assert a[..] == s;
    Shuffle(a);
    var shuffled := a[..];
    NoDuplicatesByCount(s);
    NoDuplicatesByCount(shuffled);
    r := shuffled[..if n < |s| then n else |s|];
    forall x | x in r
      ensures x in s
    {
      assert x in shuffled && x in multiset(shuffled);
      assert x in multiset(s);
    }
  }

  method SelectWorkers(workers: seq<WorkerInfo>, options: RequestParameters) returns (s: Selection)
    ensures Honours(workers, options, s)
  {
    if !options.AreValid() {
      return Selected([]);
    }
    var result: seq<nat> := [];
    for i := 0 to |workers|
      invariant Increasing(result)
      invariant forall j | 0 <= j < |result| :: result[j] < i
      invariant forall k :: k in result <==> 0 <= k < i && Eligible(workers, options.archival, k)
    {
      if workers[i].isAlive && (options.archival.Some? ==> workers[i].isArchival == options.archival.value) {
        result := result + [i];
      }
    }
    if result == [] {
      assert forall i :: !Eligible(workers, options.archival, i) by {
        assert forall i | Eligible(workers, options.archival, i) :: i in result;
      }
      EligibleCountIs(workers, options.archival, result);
      return Selected([]);
    }
    assert Eligible(workers, options.archival, result[0]);
    match options.mode
    case Broadcast => return Selected(result);
    case Single =>
      if options.liteServerIndexes.Some? {
        var i := options.liteServerIndexes.value[0];
        return Selected(if i in result then [i] else []);
      }
      var pick :| 0 <= pick < |result|;
      return Selected([result[pick]]);
    case Multiple =>
      if options.liteServerIndexes.Some? {
        return Thrown;
      }
      EligibleCountIs(workers, options.archival, result);
      var chosen := ShuffledPrefix(result, options.clientsNumber.value);
      return Selected(chosen);
  }

  lemma {:induction false} EligibleCountIs(workers: seq<WorkerInfo>, archival: Option<bool>, result: seq<nat>)
    requires Increasing(result)
    requires forall k :: k in result <==> 0 <= k < |workers| && Eligible(workers, archival, k)
    ensures EligibleCount(workers, archival) == |result|
  {
    NoDuplicatesSize(result);
    var eligible := set i | 0 <= i < |workers| && Eligible(workers, archival, i);
    forall i
      ensures i in Elements(result) <==> i in eligible
    {
      assert i in Elements(result) <==> i in result;
    }
    assert Elements(result) == eligible;
  }

  const NO_WORKERS := Error(-3, "no workers available")

  datatype SessionResult = Bound(session: Session) | Unavailable(error: Error) | Escaped

  /** `get_session_impl`: a new session, or the given one rebound in place.
      When no worker is found the given session keeps its workers. */
  method GetSession(workers: seq<WorkerInfo>, options: RequestParameters, session: Session?)
    returns (r: SessionResult, ghost selection: Selection)
    modifies session
    ensures Honours(workers, options, selection)
    ensures r.Escaped? <==> selection.Thrown?
    ensures r.Unavailable? <==> selection == Selected([])
    ensures r.Unavailable? ==> r.error == NO_WORKERS
    ensures r.Bound? ==> selection == Selected(r.session.activeWorkers) && r.session.activeWorkers != []
    ensures r.Bound? ==> if session == null then fresh(r.session) else r.session == session
    ensures session != null && !r.Bound? ==> session.activeWorkers == old(session.activeWorkers)
  {
    var s := SelectWorkers(workers, options);
    selection := s;
    if s.Thrown? {
      return Escaped, selection;
    }
    if s.workers == [] {
      return Unavailable(NO_WORKERS), selection;
    }
    if session != null {
      session.SetActiveWorkers(s.workers);
      return Bound(session), selection;
    }
    var created := new Session(s.workers);
    r := Bound(created);
  }

  // ----- What a selection means for the records -----

  /** Broadcast, whatever the indexes and the number: exactly the alive workers,
      or those of them that are of the kind asked for, in increasing order. */
  lemma {:induction false} BroadcastSelectsAll(workers: seq<WorkerInfo>, options: RequestParameters, s: Selection)
    requires options.mode == Broadcast && Honours(workers, options, s)
    ensures s.Selected? && forall i, j | 0 <= i < j < |s.workers| :: s.workers[i] < s.workers[j]
    ensures options.archival == None ==> forall i: nat :: i in s.workers <==> i < |workers| && workers[i].isAlive
    ensures forall kind | options.archival == Some(kind) ::
              forall i: nat ::
                i in s.workers <==> i < |workers| && workers[i].isAlive && workers[i].isArchival == kind
  {
    forall i: nat
      ensures Eligible(workers, options.archival, i) <==> i in s.workers
    {
    }
  }

  /** Single without indexes: one alive worker of the kind asked for, and none
      exactly when there is none. With one index: that worker, if it is alive
      and of that kind. With any other number of indexes: none. */
  lemma {:induction false} SingleSelectsOne(workers: seq<WorkerInfo>, options: RequestParameters, s: Selection)
    requires options.mode == Single && Honours(workers, options, s)
    ensures s.Selected? && |s.workers| <= 1
    ensures s.workers != [] ==>
              var w := s.workers[0];
              && w < |workers| && workers[w].isAlive
              && (options.archival.Some? ==> workers[w].isArchival == options.archival.value)
              && (options.liteServerIndexes.Some? ==> options.liteServerIndexes.value == [w])
    ensures s.workers == [] && options.liteServerIndexes.None? ==>
              forall i | 0 <= i < |workers| && workers[i].isAlive ::
                options.archival.Some? && workers[i].isArchival != options.archival.value
    ensures s.workers == [] && options.liteServerIndexes.Some? && |options.liteServerIndexes.value| == 1 ==>
              var w := options.liteServerIndexes.value[0];
              w < |workers| && workers[w].isAlive ==>
                options.archival.Some? && workers[w].isArchival != options.archival.value
  {
    if s.workers != [] {
      assert s.workers[0] in s.workers;
    } else if options.liteServerIndexes.None? {
      forall i | 0 <= i < |workers| && workers[i].isAlive
        ensures options.archival.Some? && workers[i].isArchival != options.archival.value
      {
        assert !Eligible(workers, options.archival, i);
      }
    }
  }

  /** Multiple by number: that many alive workers of the kind asked for, without
      repetition, or all of them if there are fewer. */
  lemma {:induction false} MultipleSelectsThatMany(
    workers: seq<WorkerInfo>, options: RequestParameters, s: Selection, number: nat)
    requires options.mode == Multiple && options.clientsNumber == Some(number) && options.liteServerIndexes == None
    requires Honours(workers, options, s)
    ensures s.Selected?
    ensures var kind := set i | 0 <= i < |workers| && workers[i].isAlive
                               && (options.archival.Some? ==> workers[i].isArchival == options.archival.value);
            && |s.workers| == (if number <= |kind| then number else |kind|)
            && (set i | i in s.workers) <= kind && |set i | i in s.workers| == |s.workers|
  {
    var kind := set i | 0 <= i < |workers| && workers[i].isAlive
                        && (options.archival.Some? ==> workers[i].isArchival == options.archival.value);
    assert kind == set i | 0 <= i < |workers| && Eligible(workers, options.archival, i);
    NoDuplicatesSize(s.workers);
    assert Elements(s.workers) == set i | i in s.workers;
  }

  /** Multiple by server indexes without a number is accepted, and then the
      number is read: whenever some worker could be chosen the request ends in
      an exception, whatever the indexes. With both, or with neither, nobody is chosen. */
  lemma {:induction false} MultipleByIndexesNeverSelects(
    workers: seq<WorkerInfo>, options: RequestParameters, s: Selection)
    requires options.mode.Multiple? && Honours(workers, options, s)
    requires options.liteServerIndexes.Some? || options.clientsNumber.None?
    ensures s == if options.liteServerIndexes.Some? && options.clientsNumber.None?
                    && exists i :: 0 <= i < |workers| && workers[i].isAlive
                                   && (options.archival.Some? ==> workers[i].isArchival == options.archival.value)
                 then Thrown else Selected([])
  {
    EligibleByFields(workers, options.archival);
    if s.Selected? {
      EmptyWhenNoneEligible(workers, options, s.workers);
    }
  }

  lemma {:induction false} EligibleByFields(workers: seq<WorkerInfo>, archival: Option<bool>)
    ensures (exists i :: Eligible(workers, archival, i))
       <==> exists i :: 0 <= i < |workers| && workers[i].isAlive
                        && (archival.Some? ==> workers[i].isArchival == archival.value)
  {
    if i :| 0 <= i < |workers| && workers[i].isAlive && (archival.Some? ==> workers[i].isArchival == archival.value) {
      assert Eligible(workers, archival, i);
    }
  }

  lemma {:induction false} EmptyWhenNoneEligible(workers: seq<WorkerInfo>, options: RequestParameters, chosen: seq<nat>)
    requires forall i | i in chosen :: Eligible(workers, options.archival, i)
    ensures (forall i :: !Eligible(workers, options.archival, i)) ==> chosen == []
  {
    if chosen != [] {
      assert Eligible(workers, options.archival, chosen[0]);
    }
  }

  /** When no session can be had: no worker is alive and of the kind asked for,
      or the mode does not fit what is given with it (Single with not exactly
      one index or one that names no such worker, Multiple with number and
      indexes, with neither, or with the number 0). */
  lemma {:induction false} SelectionIsEmptyExactlyWhen(
    workers: seq<WorkerInfo>, options: RequestParameters, s: Selection)
    requires Honours(workers, options, s)
    ensures s == Selected([]) <==>
              var indexes, number := options.liteServerIndexes, options.clientsNumber;
              || (forall i | 0 <= i < |workers| && workers[i].isAlive ::
                    options.archival.Some? && workers[i].isArchival != options.archival.value)
              || (options.mode == Single && indexes.Some?
                  && (|indexes.value| != 1
                      || (var w := indexes.value[0];
                          w < |workers| && workers[w].isAlive ==>
                            options.archival.Some? && workers[w].isArchival != options.archival.value)))
              || (options.mode == Multiple && (number.Some? == indexes.Some? || number == Some(0)))
  {
    EligibleByFields(workers, options.archival);
    if i :| Eligible(workers, options.archival, i) {
      var all := set k | 0 <= k < |workers| && Eligible(workers, options.archival, k);
      assert i in all;
      assert EligibleCount(workers, options.archival) > 0;
      assert workers[i].isAlive;
    } else if s.Selected? {
      EmptyWhenNoneEligible(workers, options, s.workers);
    }
  }

  /** The consensus block is the greatest block number reported by an alive
      worker; it is missing exactly when no alive worker reported a positive one. */
  method GetConsensusBlock(workers: seq<WorkerInfo>) returns (r: Result<int>)
    ensures r.Err? <==> forall i | 0 <= i < |workers| && workers[i].isAlive :: workers[i].lastMcSeqno <= 0
    ensures r.Err? ==> r.error == Error(500, "no workers alive")
    ensures r.Ok? ==> exists i :: 0 <= i < |workers| && workers[i].isAlive && workers[i].lastMcSeqno == r.value
    ensures r.Ok? ==> forall i | 0 <= i < |workers| && workers[i].isAlive :: workers[i].lastMcSeqno <= r.value
  {
    var consensusBlock := 0;
    for k := 0 to |workers|
      invariant consensusBlock >= 0
      invariant forall i | 0 <= i < k && workers[i].isAlive :: workers[i].lastMcSeqno <= consensusBlock
      invariant consensusBlock > 0 ==>
                  exists i :: 0 <= i < k && workers[i].isAlive && workers[i].lastMcSeqno == consensusBlock
    {
      if workers[k].isAlive && workers[k].lastMcSeqno > consensusBlock {
        consensusBlock := workers[k].lastMcSeqno;
      }
    }
    if consensusBlock == 0 {
      return Err(Error(500, "no workers alive"));
    }
    return Ok(consensusBlock);
  }
}
