/** The actor's timed watch over its workers: `alarm`, `check_alive`,
    `on_alive_checked`, `check_archival` and `on_archival_checked`
    (tonlib-multiclient/multi_client_actor.cpp). Time is a real number that
    never goes back; requests to workers are answered in any order, later or
    never. */
module Liveness {
  import opened Results
  import opened WorkerPool

  const FIRST_ARCHIVAL_CHECK_AFTER := 5.0
  const ARCHIVAL_CHECK_INTERVAL := 120.0
  const RETRY_INTERVAL := 10.0

  /** A worker with the requests it has not answered yet. An alive check in
      flight remembers whether the first archival round was over when it was sent. */
  datatype Slot = Slot(info: WorkerInfo, aliveChecks: seq<bool>, archivalChecks: nat)

  datatype Machine = Machine(slots: seq<Slot>, firstArchivalCheckDone: bool, nextArchivalCheck: real, now: real)

  datatype Event =
    | Alarm(at: real)
    | AliveReply(at: real, worker: nat, check: nat, lastMcSeqno: Option<int>)
    | ArchivalReply(at: real, worker: nat, isArchival: bool)

  function NewWorker(): WorkerInfo { WorkerInfo(false, false, -1, false, 0, None) }

  function Start(workers: nat, at: real): Machine {
    Machine(seq(workers, i => Slot(NewWorker(), [], 0)), false, at + FIRST_ARCHIVAL_CHECK_AFTER, at)
  }

  predicate Expired(deadline: Option<real>, now: real) { deadline.Some? && deadline.value <= now }

  /** What `check_alive` does to one worker: the record afterwards and whether a check is sent. */
  function CheckInfo(w: WorkerInfo, cap: nat, now: real): (WorkerInfo, bool) {
    if w.isWaitingForUpdate then (w, false)
    else if w.isAlive then (w.(isWaitingForUpdate := true), true)
    else if w.checkRetryCount > cap then (w, false)
    else if Expired(w.checkRetryAfter, now) then
      (w.(checkRetryCount := w.checkRetryCount + 1, checkRetryAfter := None, isWaitingForUpdate := true), true)
    else if w.checkRetryCount != 0 then (w, false)
    else (w.(isWaitingForUpdate := true), true)
  }

  function CheckSlot(s: Slot, cap: nat, now: real, done: bool): Slot {
    var (info, sent) := CheckInfo(s.info, cap, now);
    Slot(info, if sent then s.aliveChecks + [done] else s.aliveChecks, s.archivalChecks)
  }

  function ArchivalSlot(s: Slot): Slot {
    if s.info.isAlive then s.(archivalChecks := s.archivalChecks + 1) else s
  }

  function AliveInfo(w: WorkerInfo, lastMcSeqno: Option<int>, now: real): WorkerInfo {
    var w' := w.(isAlive := lastMcSeqno.Some?, isWaitingForUpdate := false);
    if lastMcSeqno.Some? then w'.(lastMcSeqno := lastMcSeqno.value, checkRetryCount := 0)
    else w'.(checkRetryAfter := Some(now + RETRY_INTERVAL))
  }

  function WithoutAt<T>(s: seq<T>, i: nat): seq<T>
    requires i < |s|
  {
    s[..i] + s[i + 1..]
  }

  function AliveSlot(s: Slot, check: nat, lastMcSeqno: Option<int>, now: real): Slot
    requires check < |s.aliveChecks|
  {
    var slot := Slot(AliveInfo(s.info, lastMcSeqno, now), WithoutAt(s.aliveChecks, check), s.archivalChecks);
    if lastMcSeqno.Some? && !s.aliveChecks[check] then ArchivalSlot(slot) else slot
  }

  predicate Enabled(m: Machine, e: Event) {
    && m.now <= e.at
    && match e
       case Alarm(_) => true
       case AliveReply(_, w, check, _) => w < |m.slots| && check < |m.slots[w].aliveChecks|
       case ArchivalReply(_, w, _) => w < |m.slots| && m.slots[w].archivalChecks > 0
  }

  /** The effect of an alarm on one slot. */
  function AlarmSlot(s: Slot, cap: nat, done: bool, archivalDue: bool, now: real): Slot {
    var checked := CheckSlot(s, cap, now, done);
    if archivalDue then ArchivalSlot(checked) else checked
  }

  function Step(cap: nat, m: Machine, e: Event): Machine
    requires Enabled(m, e)
  {
    match e
    case Alarm(at) =>
      var due := m.nextArchivalCheck <= at;
      Machine(
        seq(|m.slots|, i requires 0 <= i < |m.slots| => AlarmSlot(m.slots[i], cap, m.firstArchivalCheckDone, due, at)),
        true,
        if due then at + ARCHIVAL_CHECK_INTERVAL else m.nextArchivalCheck,
        at)
    case AliveReply(at, w, check, seqno) =>
      m.(slots := m.slots[w := AliveSlot(m.slots[w], check, seqno, at)], now := at)
    case ArchivalReply(at, w, isArchival) =>
      var s := m.slots[w];
      m.(slots := m.slots[w := Slot(s.info.(isArchival := isArchival), s.aliveChecks, s.archivalChecks - 1)], now := at)
  }

  /** The actor as the code has it: loops over the workers that update records in place. */
  class MultiClientActor {
    const cap: nat
    var slots: seq<Slot>
    var firstArchivalCheckDone: bool
    var nextArchivalCheck: real
    var now: real

    ghost function View(): Machine
      reads this
    {
      Machine(slots, firstArchivalCheckDone, nextArchivalCheck, now)
    }

    constructor (workers: nat, cap: nat, at: real)
      ensures View() == Start(workers, at) && this.cap == cap
    {
      this.cap := cap;
      slots := seq(workers, i => Slot(NewWorker(), [], 0));
      firstArchivalCheckDone, nextArchivalCheck, now := false, at + FIRST_ARCHIVAL_CHECK_AFTER, at;
    }

    method OnAlarm(at: real)
      requires now <= at
      modifies this
      ensures View() == Step(cap, old(View()), Alarm(at))
    {
      now := at;
      CheckAlive();
      firstArchivalCheckDone := true;
      if nextArchivalCheck <= now {
        CheckArchival(None);
        nextArchivalCheck := now + ARCHIVAL_CHECK_INTERVAL;
      }
    }

    method CheckAlive()
      modifies this`slots
      ensures |slots| == |old(slots)|
      ensures forall i | 0 <= i < |slots| :: slots[i] == CheckSlot(old(slots)[i], cap, now, firstArchivalCheckDone)
    {
      ghost var before := slots;
      for w := 0 to |slots|
        invariant |slots| == |before|
        invariant forall i | 0 <= i < w :: slots[i] == CheckSlot(before[i], cap, now, firstArchivalCheckDone)
        invariant forall i | w <= i < |slots| :: slots[i] == before[i]
      {
        var worker := slots[w].info;
        if worker.isWaitingForUpdate {
          continue;
        }
        if !worker.isAlive {
          if worker.checkRetryCount > cap {
            continue;
          }
          if Expired(worker.checkRetryAfter, now) {
            worker := worker.(checkRetryCount := worker.checkRetryCount + 1, checkRetryAfter := None);
          } else if worker.checkRetryCount != 0 {
            continue;
          }
        }
        worker := worker.(isWaitingForUpdate := true);
        slots := slots[w := Slot(worker, slots[w].aliveChecks + [firstArchivalCheckDone], slots[w].archivalChecks)];
      }
    }

    method CheckArchival(only: Option<nat>)
      modifies this`slots
      ensures |slots| == |old(slots)|
      ensures forall i | 0 <= i < |slots| ::
                slots[i] == if only.None? || only.value == i then ArchivalSlot(old(slots)[i]) else old(slots)[i]
    {
      ghost var before := slots;
      for w := 0 to |slots|
        invariant |slots| == |before|
        invariant forall i | 0 <= i < w ::
                    slots[i] == if only.None? || only.value == i then ArchivalSlot(before[i]) else before[i]
        invariant forall i | w <= i < |slots| :: slots[i] == before[i]
      {
        if !slots[w].info.isAlive || (only.Some? && only.value != w) {
          continue;
        }
        slots := slots[w := slots[w].(archivalChecks := slots[w].archivalChecks + 1)];
      }
    }

    /** The reply leaves the network and `on_alive_checked` handles it. */
    method OnAliveChecked(at: real, w: nat, check: nat, lastMcSeqno: Option<int>)
      requires Enabled(View(), AliveReply(at, w, check, lastMcSeqno))
      modifies this
      ensures View() == Step(cap, old(View()), AliveReply(at, w, check, lastMcSeqno))
    {
      now := at;
      var checkDone := slots[w].aliveChecks[check];
      var worker := slots[w].info;
      worker := worker.(isAlive := lastMcSeqno.Some?, isWaitingForUpdate := false);
      if lastMcSeqno.Some? {
        worker := worker.(lastMcSeqno := lastMcSeqno.value, checkRetryCount := 0);
      } else {
        worker := worker.(checkRetryAfter := Some(now + RETRY_INTERVAL));
      }
      slots := slots[w := Slot(worker, WithoutAt(slots[w].aliveChecks, check), slots[w].archivalChecks)];
      if lastMcSeqno.Some? && !checkDone {
        CheckArchival(Some(w));
      }
    }

    method OnArchivalChecked(at: real, w: nat, isArchival: bool)
      requires Enabled(View(), ArchivalReply(at, w, isArchival))
      modifies this
      ensures View() == Step(cap, old(View()), ArchivalReply(at, w, isArchival))
    {
      now := at;
      var worker := slots[w].info.(isArchival := isArchival);
      slots := slots[w := Slot(worker, slots[w].aliveChecks, slots[w].archivalChecks - 1)];
    }
  }

  // ----- Runs -----

  /** An event that is not enabled does nothing. */
  function Take(cap: nat, m: Machine, e: Event): Machine {
    if Enabled(m, e) then Step(cap, m, e) else m
  }

  /** A run is any sequence of events. */
  function Run(cap: nat, m: Machine, events: seq<Event>): Machine {
    if events == [] then m else Take(cap, Run(cap, m, events[..|events| - 1]), events[|events| - 1])
  }

  lemma {:induction false} RunAppends(cap: nat, m: Machine, first: seq<Event>, second: seq<Event>)
    ensures Run(cap, m, first + second) == Run(cap, Run(cap, m, first), second)
  {
    if second == [] {
      assert first + second == first;
    } else {
      var n := |second| - 1;
      RunAppends(cap, m, first, second[..n]);
      assert (first + second)[..|first| + n] == first + second[..n];
    }
  }

  /** The number of workers never changes, so an index in bounds stays in bounds. */
  lemma {:induction false} WorkersStay(cap: nat, m: Machine, events: seq<Event>)
    ensures |Run(cap, m, events).slots| == |m.slots|
  {
    if events != [] {
      WorkersStay(cap, m, events[..|events| - 1]);
    }
  }

  function Infos(m: Machine): seq<WorkerInfo> {
    seq(|m.slots|, i requires 0 <= i < |m.slots| => m.slots[i].info)
  }

  /** A session chosen in any reachable state is a duplicate-free list of
      workers that were alive and of the requested kind at that moment, and its
      entries name workers for the rest of the run. */
  lemma {:induction false} SessionsStayInBounds(
    cap: nat, workers: nat, at: real, first: seq<Event>, second: seq<Event>,
    options: RequestParameters, chosen: seq<nat>)
    requires Honours(Infos(Run(cap, Start(workers, at), first)), options, Selected(chosen))
    ensures NoDuplicates(chosen)
    ensures forall i | i in chosen ::
              && i < |Run(cap, Start(workers, at), first).slots|
              && i < |Run(cap, Start(workers, at), first + second).slots|
              && var info := Run(cap, Start(workers, at), first).slots[i].info;
                 info.isAlive && (options.archival.Some? ==> info.isArchival == options.archival.value)
  {
    WorkersStay(cap, Start(workers, at), first);
    WorkersStay(cap, Start(workers, at), first + second);
    forall i | i in chosen
      ensures Eligible(Infos(Run(cap, Start(workers, at), first)), options.archival, i)
    {
    }
  }

  // ----- Invariants of every reachable state -----

  /** A check is in flight exactly while the worker is waiting, and then only
      one; an alive worker has no retries; retries stop one above the cap; a
      worker that has retried and is idle has a deadline. */
  predicate SlotOk(s: Slot, cap: nat) {
    && |s.aliveChecks| == (if s.info.isWaitingForUpdate then 1 else 0)
    && (s.info.isAlive ==> s.info.checkRetryCount == 0)
    && s.info.checkRetryCount <= cap + 1
    && (s.info.checkRetryCount > 0 && !s.info.isWaitingForUpdate ==> s.info.checkRetryAfter.Some?)
  }

  lemma {:induction false} EverySlotIsOk(cap: nat, workers: nat, at: real, events: seq<Event>)
    ensures forall i | 0 <= i < |Run(cap, Start(workers, at), events).slots| ::
              SlotOk(Run(cap, Start(workers, at), events).slots[i], cap)
  {
    if events != [] {
      EverySlotIsOk(cap, workers, at, events[..|events| - 1]);
    }
  }

  /** Past the cap and idle: given up. */
  predicate GivenUp(s: Slot, cap: nat) {
    s.info.checkRetryCount > cap && !s.info.isWaitingForUpdate
  }

  /** A worker that is given up is never checked and never alive again, in any
      continuation of any run. */
  lemma {:induction false} GivenUpForGood(
    cap: nat, workers: nat, at: real, first: seq<Event>, second: seq<Event>, w: nat)
    requires w < workers
    requires |Run(cap, Start(workers, at), first).slots| == workers
    requires GivenUp(Run(cap, Start(workers, at), first).slots[w], cap)
    ensures |Run(cap, Start(workers, at), first + second).slots| == workers
    ensures var s := Run(cap, Start(workers, at), first + second).slots[w];
            GivenUp(s, cap) && !s.info.isAlive && s.aliveChecks == []
  {
    if second == [] {
      assert first + second == first;
      EverySlotIsOk(cap, workers, at, first);
    } else {
      var n := |second| - 1;
      GivenUpForGood(cap, workers, at, first, second[..n], w);
      assert (first + second)[..|first| + n] == first + second[..n];
    }
  }

  // ----- What the flags say -----

  /** The last reply to an alive check of worker `w` that took place. */
  function LastAlive(cap: nat, m: Machine, events: seq<Event>, w: nat): Option<Option<int>> {
    if events == [] then None
    else
      var p, e := events[..|events| - 1], events[|events| - 1];
      if e.AliveReply? && e.worker == w && Enabled(Run(cap, m, p), e) then Some(e.lastMcSeqno)
      else LastAlive(cap, m, p, w)
  }

  /** The last reply to an archival check of worker `w` that took place. */
  function LastArchival(cap: nat, m: Machine, events: seq<Event>, w: nat): Option<bool> {
    if events == [] then None
    else
      var p, e := events[..|events| - 1], events[|events| - 1];
      if e.ArchivalReply? && e.worker == w && Enabled(Run(cap, m, p), e) then Some(e.isArchival)
      else LastArchival(cap, m, p, w)
  }

  /** Selection goes by the last replies: a worker counts as alive exactly when
      its last answered alive check succeeded, with the block number it then
      reported, and as archival exactly when its last answered archival check
      succeeded, however many checks were sent or are in flight. */
  lemma {:induction false} FlagsAreLastReplies(cap: nat, workers: nat, at: real, events: seq<Event>, w: nat)
    requires w < workers
    ensures |Run(cap, Start(workers, at), events).slots| == workers
    ensures var info := Run(cap, Start(workers, at), events).slots[w].info;
            var alive := LastAlive(cap, Start(workers, at), events, w);
            && (info.isAlive <==> alive.Some? && alive.value.Some?)
            && (info.isAlive ==> info.lastMcSeqno == alive.value.value)
            && (info.isArchival <==> LastArchival(cap, Start(workers, at), events, w) == Some(true))
  {
    WorkersStay(cap, Start(workers, at), events);
    if events != [] {
      FlagsAreLastReplies(cap, workers, at, events[..|events| - 1], w);
    }
  }

  // ----- Retries -----

  /** The time of the last reply to an alive check of worker `w`, when it failed. */
  function LastFailure(cap: nat, m: Machine, events: seq<Event>, w: nat): Option<real> {
    if events == [] then None
    else
      var p, e := events[..|events| - 1], events[|events| - 1];
      if e.AliveReply? && e.worker == w && Enabled(Run(cap, m, p), e) then
        if e.lastMcSeqno.Some? then None else Some(e.at)
      else LastFailure(cap, m, p, w)
  }

  /** At `at` no check of worker `w` is in flight, and its last reply failed at
      least the retry interval ago. */
  predicate RetryDue(cap: nat, m: Machine, events: seq<Event>, w: nat, at: real) {
    && w < |Run(cap, m, events).slots| && Run(cap, m, events).slots[w].aliveChecks == []
    && LastFailure(cap, m, events, w).Some? && LastFailure(cap, m, events, w).value + 10.0 <= at
  }

  /** How many alarms since the worker's last successful reply found a retry due. */
  function DueAlarms(cap: nat, m: Machine, events: seq<Event>, w: nat): nat {
    if events == [] then 0
    else
      var p, e := events[..|events| - 1], events[|events| - 1];
      if !Enabled(Run(cap, m, p), e) then DueAlarms(cap, m, p, w)
      else
        match e
        case Alarm(at) => DueAlarms(cap, m, p, w) + if RetryDue(cap, m, p, w, at) then 1 else 0
        case AliveReply(_, v, _, seqno) => if v == w && seqno.Some? then 0 else DueAlarms(cap, m, p, w)
        case ArchivalReply(_, _, _) => DueAlarms(cap, m, p, w)
  }

  function Min(a: nat, b: nat): nat { if a < b then a else b }

  /** The record as the history of replies and alarms gives it. */
  ghost predicate RetriesOk(info: WorkerInfo, cap: nat, due: nat, failure: Option<real>) {
    && info.checkRetryCount == Min(due, cap + 1)
    && (info.isAlive ==> failure.None?)
    && (!info.isAlive && !info.isWaitingForUpdate ==>
          info.checkRetryAfter == if failure.Some? then Some(failure.value + RETRY_INTERVAL) else None)
    && (failure.None? && !info.isAlive ==> info.checkRetryAfter.None?)
  }

  lemma {:induction false} AlarmKeepsRetries(s: Slot, cap: nat, due: nat, failure: Option<real>, now: real)
    requires SlotOk(s, cap) && RetriesOk(s.info, cap, due, failure)
    ensures var found := s.aliveChecks == [] && failure.Some? && failure.value + RETRY_INTERVAL <= now;
            RetriesOk(CheckInfo(s.info, cap, now).0, cap, due + if found then 1 else 0, failure)
  {
  }

  lemma {:induction false} RetriesAreHistory(cap: nat, workers: nat, at: real, events: seq<Event>, w: nat)
    requires w < workers
    ensures |Run(cap, Start(workers, at), events).slots| == workers
    ensures RetriesOk(Run(cap, Start(workers, at), events).slots[w].info, cap,
                      DueAlarms(cap, Start(workers, at), events, w), LastFailure(cap, Start(workers, at), events, w))
  {
    WorkersStay(cap, Start(workers, at), events);
    if events != [] {
      var p := events[..|events| - 1];
      RetriesAreHistory(cap, workers, at, p, w);
      EverySlotIsOk(cap, workers, at, p);
      var m, e := Run(cap, Start(workers, at), p), events[|events| - 1];
      if e.Alarm? {
        AlarmKeepsRetries(m.slots[w], cap, DueAlarms(cap, Start(workers, at), p, w),
                          LastFailure(cap, Start(workers, at), p, w), e.at);
      }
    }
  }

  /** In every run the retry count is the number of alarms, since the worker's
      last successful reply, that found a retry due, up to one above the cap. So
      a worker is given up exactly when more than `cap` alarms have found a
      retry due since then and none of its checks is in flight. */
  lemma {:induction false} RetryCountIsDueAlarms(cap: nat, workers: nat, at: real, events: seq<Event>, w: nat)
    requires w < workers
    ensures |Run(cap, Start(workers, at), events).slots| == workers
    ensures var s, due := Run(cap, Start(workers, at), events).slots[w], DueAlarms(cap, Start(workers, at), events, w);
            && s.info.checkRetryCount == Min(due, cap + 1)
            && (GivenUp(s, cap) <==> due > cap && s.aliveChecks == [])
  {
    RetriesAreHistory(cap, workers, at, events, w);
    EverySlotIsOk(cap, workers, at, events);
  }

  // ----- Which checks are sent -----

  /** How many replies to alive checks of worker `w` took place. */
  function AliveReplies(cap: nat, m: Machine, events: seq<Event>, w: nat): nat {
    if events == [] then 0
    else
      var p, e := events[..|events| - 1], events[|events| - 1];
      AliveReplies(cap, m, p, w) + if e.AliveReply? && e.worker == w && Enabled(Run(cap, m, p), e) then 1 else 0
  }

  /** How many replies to archival checks of worker `w` took place. */
  function ArchivalReplies(cap: nat, m: Machine, events: seq<Event>, w: nat): nat {
    if events == [] then 0
    else
      var p, e := events[..|events| - 1], events[|events| - 1];
      ArchivalReplies(cap, m, p, w) + if e.ArchivalReply? && e.worker == w && Enabled(Run(cap, m, p), e) then 1 else 0
  }

  /** An alarm at `at` owes worker `w` an alive check, by the history so far:
      all earlier ones are answered, and the worker never answered before, or
      its last reply succeeded, or it failed ten seconds ago or more and no
      more than `cap` alarms have found that since its last success, or it
      failed later than that and no alarm has ever found that since. */
  predicate AliveCheckOwed(cap: nat, m: Machine, events: seq<Event>, w: nat, at: real)
    decreases |events|, 1
  {
    && AliveChecksOwed(cap, m, events, w) == AliveReplies(cap, m, events, w)
    && match LastAlive(cap, m, events, w)
       case None => true
       case Some(reply) =>
         || reply.Some?
         || (LastFailure(cap, m, events, w).Some?
             && if LastFailure(cap, m, events, w).value + 10.0 <= at then DueAlarms(cap, m, events, w) <= cap
                else DueAlarms(cap, m, events, w) == 0)
  }

  /** How many alive checks the alarms so far owed worker `w`. */
  function AliveChecksOwed(cap: nat, m: Machine, events: seq<Event>, w: nat): nat
    decreases |events|, 0
  {
    if events == [] then 0
    else
      var p, e := events[..|events| - 1], events[|events| - 1];
      AliveChecksOwed(cap, m, p, w)
      + if e.Alarm? && Enabled(Run(cap, m, p), e) && AliveCheckOwed(cap, m, p, w, e.at) then 1 else 0
  }

  /** When the next round of archival checks is due: five seconds after the
      start `at`, then two minutes after the alarm that held the last one. */
  function RoundDue(cap: nat, m: Machine, at: real, events: seq<Event>): real {
    if events == [] then at + 5.0
    else
      var p, e := events[..|events| - 1], events[|events| - 1];
      var due := RoundDue(cap, m, at, p);
      if e.Alarm? && Enabled(Run(cap, m, p), e) && due <= e.at then e.at + 120.0 else due
  }

  /** How many archival checks the history owes worker `w`: one for each alarm
      that holds a round while the last reply of the worker is a success, and
      one for its very first reply, when that is a success. */
  function ArchivalChecksOwed(cap: nat, m: Machine, at: real, events: seq<Event>, w: nat): nat {
    if events == [] then 0
    else
      var p, e := events[..|events| - 1], events[|events| - 1];
      var owed := ArchivalChecksOwed(cap, m, at, p, w);
      if !Enabled(Run(cap, m, p), e) then owed
      else
        match e
        case Alarm(now) =>
          var alive := LastAlive(cap, m, p, w);
          owed + if RoundDue(cap, m, at, p) <= now && alive.Some? && alive.value.Some? then 1 else 0
        case AliveReply(_, v, _, seqno) =>
          owed + if v == w && seqno.Some? && LastAlive(cap, m, p, w).None? then 1 else 0
        case ArchivalReply(_, _, _) => owed
  }

  lemma {:induction false} FailuresAreReplies(cap: nat, m: Machine, events: seq<Event>, w: nat)
    ensures LastFailure(cap, m, events, w).Some? <==> LastAlive(cap, m, events, w) == Some(None)
    ensures LastFailure(cap, m, events, w).None? ==> DueAlarms(cap, m, events, w) == 0
  {
    if events != [] {
      FailuresAreReplies(cap, m, events[..|events| - 1], w);
    }
  }

  /** A check sent by the first alarm is in flight exactly while the worker has
      not replied, from that alarm on; all later checks know that the first
      round is over. */
  ghost predicate ChecksKnow(s: Slot, firstDone: bool, alive: Option<Option<int>>) {
    && (alive.None? ==> s.aliveChecks == if firstDone then [false] else [])
    && (alive.Some? ==> firstDone && forall i | 0 <= i < |s.aliveChecks| :: s.aliveChecks[i])
  }

  lemma {:induction false} FirstChecksAreKnown(cap: nat, workers: nat, at: real, events: seq<Event>, w: nat)
    requires w < workers
    ensures |Run(cap, Start(workers, at), events).slots| == workers
    ensures var m := Run(cap, Start(workers, at), events);
            ChecksKnow(m.slots[w], m.firstArchivalCheckDone, LastAlive(cap, Start(workers, at), events, w))
  {
    WorkersStay(cap, Start(workers, at), events);
    if events != [] {
      var p := events[..|events| - 1];
      FirstChecksAreKnown(cap, workers, at, p, w);
      EverySlotIsOk(cap, workers, at, p);
      RetriesAreHistory(cap, workers, at, p, w);
      FailuresAreReplies(cap, Start(workers, at), p, w);
      FlagsAreLastReplies(cap, workers, at, p, w);
    }
  }

  /** In every run the alive checks of a worker in flight are those the alarms
      owed it less those answered. */
  lemma {:induction false} AliveChecksAreAccounted(cap: nat, workers: nat, at: real, events: seq<Event>, w: nat)
    requires w < workers
    ensures |Run(cap, Start(workers, at), events).slots| == workers
    ensures |Run(cap, Start(workers, at), events).slots[w].aliveChecks|
         == AliveChecksOwed(cap, Start(workers, at), events, w) - AliveReplies(cap, Start(workers, at), events, w)
  {
    WorkersStay(cap, Start(workers, at), events);
    if events != [] {
      var p := events[..|events| - 1];
      AliveChecksAreAccounted(cap, workers, at, p, w);
      EverySlotIsOk(cap, workers, at, p);
      RetriesAreHistory(cap, workers, at, p, w);
      FailuresAreReplies(cap, Start(workers, at), p, w);
      FlagsAreLastReplies(cap, workers, at, p, w);
    }
  }

  lemma {:induction false} RoundsAreDue(cap: nat, workers: nat, at: real, events: seq<Event>)
    ensures Run(cap, Start(workers, at), events).nextArchivalCheck == RoundDue(cap, Start(workers, at), at, events)
  {
    if events != [] {
      RoundsAreDue(cap, workers, at, events[..|events| - 1]);
    }
  }

  /** In every run the archival checks of a worker in flight are those the
      history owes it less those answered: whenever a round is held, each worker
      whose last reply succeeded is asked, and besides each worker is asked
      right after its first reply, if that succeeded. */
  lemma {:induction false} ArchivalChecksAreAccounted(cap: nat, workers: nat, at: real, events: seq<Event>, w: nat)
    requires w < workers
    ensures |Run(cap, Start(workers, at), events).slots| == workers
    ensures Run(cap, Start(workers, at), events).slots[w].archivalChecks
         == ArchivalChecksOwed(cap, Start(workers, at), at, events, w)
            - ArchivalReplies(cap, Start(workers, at), events, w)
  {
    WorkersStay(cap, Start(workers, at), events);
    if events != [] {
      var p := events[..|events| - 1];
      ArchivalChecksAreAccounted(cap, workers, at, p, w);
      FirstChecksAreKnown(cap, workers, at, p, w);
      FlagsAreLastReplies(cap, workers, at, p, w);
      RoundsAreDue(cap, workers, at, p);
    }
  }

  // ----- Timely alarms -----

  /** The time of the last alarm that took place, if any. */
  function LastAlarm(cap: nat, m: Machine, events: seq<Event>): Option<real> {
    if events == [] then None
    else
      var p, e := events[..|events| - 1], events[|events| - 1];
      if e.Alarm? && Enabled(Run(cap, m, p), e) then Some(e.at) else LastAlarm(cap, m, p)
  }

  /** Every alarm comes less than ten seconds after the one before it. */
  predicate Timely(cap: nat, m: Machine, events: seq<Event>) {
    events == [] ||
    var p, e := events[..|events| - 1], events[|events| - 1];
    && Timely(cap, m, p)
    && (e.Alarm? && Enabled(Run(cap, m, p), e) && LastAlarm(cap, m, p).Some? ==>
          e.at < LastAlarm(cap, m, p).value + 10.0)
  }

  /** A worker never retried; when idle and down, its deadline lies a full
      retry interval after the last alarm. */
  predicate Fresh(s: Slot, last: Option<real>) {
    && s.info.checkRetryCount == 0
    && (!s.info.isAlive && !s.info.isWaitingForUpdate && s.info.checkRetryAfter.Some? ==>
          last.Some? && s.info.checkRetryAfter.value >= last.value + RETRY_INTERVAL)
    && (last.None? ==> !s.info.isWaitingForUpdate)
  }

  lemma {:induction false} LastAlarmIsPast(cap: nat, m: Machine, events: seq<Event>)
    ensures m.now <= Run(cap, m, events).now
    ensures LastAlarm(cap, m, events).Some? ==> LastAlarm(cap, m, events).value <= Run(cap, m, events).now
  {
    if events != [] {
      LastAlarmIsPast(cap, m, events[..|events| - 1]);
    }
  }

  lemma {:induction false} TimelyWorkersAreFresh(cap: nat, workers: nat, at: real, events: seq<Event>)
    requires Timely(cap, Start(workers, at), events)
    ensures forall i | 0 <= i < |Run(cap, Start(workers, at), events).slots| ::
              Fresh(Run(cap, Start(workers, at), events).slots[i], LastAlarm(cap, Start(workers, at), events))
  {
    if events != [] {
      var p := events[..|events| - 1];
      TimelyWorkersAreFresh(cap, workers, at, p);
      LastAlarmIsPast(cap, Start(workers, at), p);
      EverySlotIsOk(cap, workers, at, p);
    }
  }

  /** While alarms come less than ten seconds apart, retries are never counted,
      so no worker is ever given up ... */
  lemma {:induction false} TimelyAlarmsNeverGiveUp(cap: nat, workers: nat, at: real, events: seq<Event>)
    requires Timely(cap, Start(workers, at), events)
    ensures forall i | 0 <= i < |Run(cap, Start(workers, at), events).slots| ::
              && Run(cap, Start(workers, at), events).slots[i].info.checkRetryCount == 0
              && !GivenUp(Run(cap, Start(workers, at), events).slots[i], cap)
  {
    TimelyWorkersAreFresh(cap, workers, at, events);
    forall i | 0 <= i < |Run(cap, Start(workers, at), events).slots|
      ensures Run(cap, Start(workers, at), events).slots[i].info.checkRetryCount == 0
    {
      assert Fresh(Run(cap, Start(workers, at), events).slots[i], LastAlarm(cap, Start(workers, at), events));
    }
  }

  /** ... and every worker that is idle at an alarm is checked by it, so after
      the alarm there is exactly one check in flight for each worker. */
  lemma {:induction false} TimelyAlarmsCheckEveryone(cap: nat, workers: nat, at: real, events: seq<Event>, when: real)
    requires Timely(cap, Start(workers, at), events + [Alarm(when)])
    requires Enabled(Run(cap, Start(workers, at), events), Alarm(when))
    ensures forall i | 0 <= i < |Run(cap, Start(workers, at), events + [Alarm(when)]).slots| ::
              && Run(cap, Start(workers, at), events + [Alarm(when)]).slots[i].info.isWaitingForUpdate
              && |Run(cap, Start(workers, at), events + [Alarm(when)]).slots[i].aliveChecks| == 1
  {
    var all := events + [Alarm(when)];
    assert all[..|events|] == events;
    TimelyWorkersAreFresh(cap, workers, at, events);
    EverySlotIsOk(cap, workers, at, all);
    forall i | 0 <= i < |Run(cap, Start(workers, at), all).slots|
      ensures Run(cap, Start(workers, at), all).slots[i].info.isWaitingForUpdate
    {
      assert Fresh(Run(cap, Start(workers, at), events).slots[i], LastAlarm(cap, Start(workers, at), events));
    }
  }

  lemma {:induction false} RunSnoc(cap: nat, m: Machine, events: seq<Event>, e: Event)
    ensures Run(cap, m, events + [e]) == Take(cap, Run(cap, m, events), e)
  {
    assert (events + [e])[..|events|] == events;
  }

  /** A machine that watches one worker. */
  function One(info: WorkerInfo, checks: seq<bool>, next: real, now: real): Machine {
    Machine([Slot(info, checks, 0)], true, next, now)
  }

  lemma {:induction false} FirstAlarm(cap: nat)
    ensures Enabled(Start(1, 0.0), Alarm(1.0))
    ensures Step(cap, Start(1, 0.0), Alarm(1.0)) == One(NewWorker().(isWaitingForUpdate := true), [false], 5.0, 1.0)
  {
    assert Start(1, 0.0).slots == [Slot(NewWorker(), [], 0)];
    assert [] + [false] == [false];
  }

  lemma {:induction false} FailedReply(cap: nat, info: WorkerInfo, flag: bool, next: real, now: real)
    ensures var m := One(info, [flag], next, now);
            && Enabled(m, AliveReply(now, 0, 0, None))
            && Step(cap, m, AliveReply(now, 0, 0, None)) == One(AliveInfo(info, None, now), [], next, now)
  {
    assert WithoutAt([flag], 0) == [];
  }

  /** The worker is down and idle, was retried `k` times, and its deadline is `due`. */
  predicate Down(info: WorkerInfo, k: nat, due: real) {
    !info.isWaitingForUpdate && !info.isAlive && info.checkRetryCount == k && info.checkRetryAfter == Some(due)
  }

  function NextArchival(next: real, at: real): real {
    if next <= at then at + ARCHIVAL_CHECK_INTERVAL else next
  }

  lemma {:induction false} AlarmRetries(cap: nat, info: WorkerInfo, k: nat, next: real, now: real, at: real)
    requires Down(info, k, at) && k <= cap && now <= at
    ensures Enabled(One(info, [], next, now), Alarm(at))
    ensures Step(cap, One(info, [], next, now), Alarm(at))
         == One(info.(checkRetryCount := k + 1, checkRetryAfter := None, isWaitingForUpdate := true), [true],
                NextArchival(next, at), at)
  {
    assert [] + [true] == [true];
  }

  lemma {:induction false} AlarmWaits(cap: nat, info: WorkerInfo, k: nat, due: real, next: real, now: real, at: real)
    requires Down(info, k, due) && k > 0 && now <= at < due
    ensures Enabled(One(info, [], next, now), Alarm(at))
    ensures Step(cap, One(info, [], next, now), Alarm(at)) == One(info, [], NextArchival(next, at), at)
  {
  }

  /** Two alarms five seconds apart; the check that the second one sends fails. */
  function Round(t: real): seq<Event> {
    [Alarm(t + 5.0), Alarm(t + 10.0), AliveReply(t + 10.0, 0, 0, None)]
  }

  /** The time `n` rounds after `t`. */
  function TimeAfter(t: real, n: nat): real { if n == 0 then t else TimeAfter(t, n - 1) + 10.0 }

  function Rounds(t: real, n: nat): seq<Event> {
    if n == 0 then [] else Rounds(t, n - 1) + Round(TimeAfter(t, n - 1))
  }

  lemma {:induction false} ThreeEvents(cap: nat, m: Machine, a: Event, b: Event, c: Event)
    ensures Run(cap, m, [a, b, c]) == Take(cap, Take(cap, Take(cap, m, a), b), c)
  {
    RunSnoc(cap, m, [], a);
    RunSnoc(cap, m, [a], b);
    RunSnoc(cap, m, [a, b], c);
    assert [] + [a] == [a] && [a] + [b] == [a, b] && [a, b] + [c] == [a, b, c];
  }

  lemma {:induction false} OneRound(cap: nat, info: WorkerInfo, k: nat, next: real, now: real)
    returns (info': WorkerInfo, next': real)
    requires Down(info, k, now + 10.0) && 0 < k <= cap
    ensures Run(cap, One(info, [], next, now), Round(now)) == One(info', [], next', now + 10.0)
    ensures Down(info', k + 1, now + 20.0)
  {
    var m := One(info, [], next, now);
    ThreeEvents(cap, m, Alarm(now + 5.0), Alarm(now + 10.0), AliveReply(now + 10.0, 0, 0, None));
    AlarmWaits(cap, info, k, now + 10.0, next, now, now + 5.0);
    next' := NextArchival(NextArchival(next, now + 5.0), now + 10.0);
    AlarmRetries(cap, info, k, NextArchival(next, now + 5.0), now + 5.0, now + 10.0);
    var retried := info.(checkRetryCount := k + 1, checkRetryAfter := None, isWaitingForUpdate := true);
    FailedReply(cap, retried, true, next', now + 10.0);
    info' := AliveInfo(retried, None, now + 10.0);
  }

  lemma {:induction false} RetriesRunOn(cap: nat, info: WorkerInfo, next: real, now: real, n: nat)
    returns (info': WorkerInfo, next': real)
    requires Down(info, 1, now + 10.0) && n <= cap
    ensures Run(cap, One(info, [], next, now), Rounds(now, n)) == One(info', [], next', TimeAfter(now, n))
    ensures Down(info', n + 1, TimeAfter(now, n) + 10.0)
  {
    if n == 0 {
      info', next' := info, next;
    } else {
      var i, x := RetriesRunOn(cap, info, next, now, n - 1);
      info', next' := OneRound(cap, i, n, x, TimeAfter(now, n - 1));
      RunAppends(cap, One(info, [], next, now), Rounds(now, n - 1), Round(TimeAfter(now, n - 1)));
    }
  }

  function LateStart(): seq<Event> {
    [Alarm(1.0), AliveReply(1.0, 0, 0, None), Alarm(11.0), AliveReply(11.0, 0, 0, None)]
  }

  lemma {:induction false} LateStartCountsOne(cap: nat) returns (info: WorkerInfo)
    ensures Run(cap, Start(1, 0.0), LateStart()) == One(info, [], 131.0, 11.0) && Down(info, 1, 21.0)
  {
    var start := Start(1, 0.0);
    var e1: seq<Event> := [Alarm(1.0)];
    var e2 := e1 + [AliveReply(1.0, 0, 0, None)];
    var e3 := e2 + [Alarm(11.0)];
    assert e1 == [] + [Alarm(1.0)] && e3 + [AliveReply(11.0, 0, 0, None)] == LateStart();
    RunSnoc(cap, start, [], Alarm(1.0));
    RunSnoc(cap, start, e1, AliveReply(1.0, 0, 0, None));
    RunSnoc(cap, start, e2, Alarm(11.0));
    RunSnoc(cap, start, e3, AliveReply(11.0, 0, 0, None));
    FirstAlarm(cap);
    var waiting := NewWorker().(isWaitingForUpdate := true);
    FailedReply(cap, waiting, false, 5.0, 1.0);
    var down := AliveInfo(waiting, None, 1.0);
    AlarmRetries(cap, down, 0, 5.0, 1.0, 11.0);
    var retried := down.(checkRetryCount := 1, checkRetryAfter := None, isWaitingForUpdate := true);
    FailedReply(cap, retried, true, 131.0, 11.0);
    info := AliveInfo(retried, None, 11.0);
  }

  /** The bound is sharp, and one late alarm is enough, whatever the cap: an
      alarm ten seconds after the one whose check failed at once counts a
      retry, and from then on alarms five seconds apart count the others, until
      a worker that never answers is given up. */
  lemma {:induction false} OneLateAlarmIsEnough(cap: nat)
    ensures var m := Run(cap, Start(1, 0.0), LateStart() + Rounds(11.0, cap));
            |m.slots| == 1 && m.slots[0].info.checkRetryCount == cap + 1 && GivenUp(m.slots[0], cap)
  {
    var first := LateStartCountsOne(cap);
    var last, next := RetriesRunOn(cap, first, 131.0, 11.0, cap);
    RunAppends(cap, Start(1, 0.0), LateStart(), Rounds(11.0, cap));
  }
}
