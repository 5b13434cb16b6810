/** An account's transactions, fetched in chunks (`getTransactions` in
    ton-http-api/tonlib_worker.cpp).

    The chain is the account's history from the newest transaction down. A
    server is asked for `n` transactions from a cursor; it may fail, and it may
    return fewer than asked, but what it returns is a piece of the chain. */
module Transactions {
  import opened Results

  datatype TxId = TxId(lt: nat, hash: string)

  datatype Address = Address(workchain: int, account: string)

  datatype Message = Message(source: Option<Address>, destination: Option<Address>, createdLt: nat)

  datatype Tx = Tx(id: TxId, inMsg: Option<Message>, outMsgs: seq<Message>)

  datatype Reply = Reply(transactions: seq<Tx>, previous: Option<TxId>)

  /** What a server answers in round `round`, asked for `n` transactions from a cursor. */
  type Server = (int, TxId, int) -> Result<Reply>

  ghost predicate Positive(txs: seq<Tx>) {
    forall i | 0 <= i < |txs| :: txs[i].id.lt > 0
  }

  predicate Later(txs: seq<Tx>, i: int, j: int) {
    0 <= i < j < |txs| ==> txs[i].id.lt > txs[j].id.lt
  }

  ghost predicate Falling(txs: seq<Tx>) {
    forall i, j :: Later(txs, i, j)
  }

  lemma {:induction false} SuffixFalls(txs: seq<Tx>, k: nat)
    requires Falling(txs) && k <= |txs|
    ensures Falling(txs[k..])
  {
    forall i, j
      ensures Later(txs[k..], i, j)
    {
      assert Later(txs, i + k, j + k);
    }
  }

  /** Logical times are positive and strictly decrease down the chain. */
  ghost predicate IsChain(chain: seq<Tx>) {
    Positive(chain) && Falling(chain)
  }

  /** The cursor of position `pos`: the id there, or logical time 0 at the end. */
  predicate IsCursor(chain: seq<Tx>, pos: int, id: TxId) {
    (0 <= pos < |chain| && chain[pos].id == id) || (pos == |chain| && id.lt == 0)
  }

  /** A reply to a request for `n` transactions from position `pos`: a piece of
      the chain that starts there, no longer than asked, not empty while the
      chain goes on; and the cursor of what follows it. */
  ghost predicate IsReply(chain: seq<Tx>, pos: int, n: nat, r: Reply) {
    && 0 <= pos && pos + |r.transactions| <= |chain|
    && r.transactions == chain[pos..pos + |r.transactions|]
    && |r.transactions| <= n
    && (pos < |chain| && n > 0 ==> r.transactions != [])
    && match r.previous
       case Some(id) => IsCursor(chain, pos + |r.transactions|, id)
       case None => pos + |r.transactions| == |chain|
  }

  ghost predicate RepliesFrom(chain: seq<Tx>, id: TxId, n: nat, r: Reply) {
    exists pos :: IsCursor(chain, pos, id) && IsReply(chain, pos, n, r)
  }

  /** The server contract: an answer that is no error is a correct reply. */
  ghost predicate Serves(server: Server, chain: seq<Tx>) {
    forall round, id, n: int :: ServesAt(server, chain, round, id, n)
  }

  ghost predicate ServesAt(server: Server, chain: seq<Tx>, round: int, id: TxId, n: int) {
    n >= 0 && server(round, id, n).Ok? ==> RepliesFrom(chain, id, n, server(round, id, n).value)
  }

  // ----- The specification -----

  /** The longest prefix of transactions later than `to`. */
  function Above(txs: seq<Tx>, to: nat): seq<Tx> {
    if txs == [] || txs[0].id.lt <= to then [] else [txs[0]] + Above(txs[1..], to)
  }

  function Take<T>(s: seq<T>, n: nat): seq<T> { if n < |s| then s[..n] else s }

  /** What the caller wants: at most `count` transactions from `pos` down, as
      long as they are later than `to`. */
  function Wanted(chain: seq<Tx>, pos: nat, to: nat, count: nat): seq<Tx>
    requires pos <= |chain|
  {
    Take(Above(chain[pos..], to), count)
  }

  lemma {:induction false} AboveIsPrefix(txs: seq<Tx>, to: nat)
    ensures Above(txs, to) <= txs
    ensures forall i | 0 <= i < |Above(txs, to)| :: txs[i].id.lt > to
    ensures |Above(txs, to)| < |txs| ==> txs[|Above(txs, to)|].id.lt <= to
  {
    if txs == [] || txs[0].id.lt <= to {
    } else {
      AboveIsPrefix(txs[1..], to);
    }
  }

  /** On a chain the prefix above `to` is all of the transactions above `to`. */
  lemma {:induction false} AboveIsAll(chain: seq<Tx>, pos: nat, to: nat)
    requires IsChain(chain) && pos <= |chain|
    ensures forall i | pos <= i < |chain| :: chain[i].id.lt > to <==> i < pos + |Above(chain[pos..], to)|
  {
    var suffix := chain[pos..];
    AboveIsPrefix(suffix, to);
    var a := |Above(suffix, to)|;
    forall i | pos <= i < |chain|
      ensures chain[i].id.lt > to <==> i < pos + a
    {
      assert chain[i] == suffix[i - pos];
      if i >= pos + a {
        assert chain[pos + a] == suffix[a];
        assert Later(chain, pos + a, i);
      }
    }
  }

  lemma {:induction false} CursorIsUnique(chain: seq<Tx>, p: int, q: int, id: TxId)
    requires IsChain(chain) && IsCursor(chain, p, id) && IsCursor(chain, q, id)
    ensures p == q
  {
    assert Later(chain, p, q) && Later(chain, q, p);
  }

  /** A page as the caller gets it: the transactions and the cursor to go on from. */
  datatype Page = Page(transactions: seq<Tx>, previous: Option<TxId>)

  function CountAbove(txs: seq<Tx>, to: nat): nat {
    if txs == [] then 0 else CountAbove(txs[1..], to) + if txs[0].id.lt <= to then 0 else 1
  }

  /** A cursor right after the last transaction fetched: a full page is all
      that was fetched; a page that is short ran past `to` or out of the chain. */
  ghost predicate FollowsPage(chain: seq<Tx>, pos: int, count: nat, page: Page, next: int) {
    var end := pos + |page.transactions|;
    && end <= next <= |chain|
    && (|page.transactions| >= count ==> next == end)
    && (|page.transactions| < count && next == end ==> end == |chain|)
  }

  /** The returned cursor stands behind all that was fetched. */
  ghost predicate ResumesAt(chain: seq<Tx>, pos: int, count: nat, page: Page) {
    page.previous.Some?
    && exists next :: IsCursor(chain, next, page.previous.value) && FollowsPage(chain, pos, count, page, next)
  }

  ghost predicate IsPage(chain: seq<Tx>, pos: int, to: nat, count: nat, page: Page) {
    0 <= pos <= |chain| && page.transactions == Wanted(chain, pos, to, count)
  }

  ghost predicate FailedSomewhere(server: Server, error: Error) {
    exists round, id, n: int :: n >= 0 && server(round, id, n) == Err(error)
  }

  // ----- The loop of `getTransactions` as a run of replies -----

  /** The variables of the loop; `named` tells whether the last reply had a cursor. */
  datatype Loop = Loop(
    txs: seq<Tx>, txCount: nat, current: TxId, previous: Option<TxId>, reachLt: bool, named: bool)
  {
    predicate GoesOn(count: nat) { !reachLt && txCount < count }

    function Asks(count: nat, chunkSize: nat): int {
      if count - txCount > chunkSize then chunkSize else count - txCount
    }
  }

  /** The variables after one more reply. */
  function AfterReply(s: Loop, reply: Reply, to: nat): Loop {
    var chunk := reply.transactions;
    var current := if reply.previous.Some? then reply.previous.value else s.current;
    Loop(s.txs + chunk, s.txCount + CountAbove(chunk, to), current,
         if reply.previous.Some? then reply.previous else s.previous,
         CountAbove(chunk, to) < |chunk| || reply.previous.None? || current.lt == 0, reply.previous.Some?)
  }

  function AfterReplies(start: TxId, to: nat, replies: seq<Reply>): Loop {
    if replies == [] then Loop([], 0, start, None, false, false)
    else AfterReply(AfterReplies(start, to, replies[..|replies| - 1]), replies[|replies| - 1], to)
  }

  ghost predicate IsRound(
    server: Server, start: TxId, to: nat, count: nat, chunkSize: nat, replies: seq<Reply>, k: nat)
    requires k < |replies|
  {
    var s := AfterReplies(start, to, replies[..k]);
    s.GoesOn(count) && server(k, s.current, s.Asks(count, chunkSize)) == Ok(replies[k])
  }

  /** The replies of a call that ends with an error of the server. */
  ghost predicate RunFails(
    server: Server, start: TxId, to: nat, count: nat, chunkSize: nat, replies: seq<Reply>, error: Error)
  {
    var s := AfterReplies(start, to, replies);
    && IsRun(server, start, to, count, chunkSize, replies)
    && s.GoesOn(count) && server(|replies|, s.current, s.Asks(count, chunkSize)) == Err(error)
  }

  /** The replies that a call gets, in order, up to some round. */
  ghost predicate IsRun(server: Server, start: TxId, to: nat, count: nat, chunkSize: nat, replies: seq<Reply>) {
    forall k | 0 <= k < |replies| :: IsRound(server, start, to, count, chunkSize, replies, k)
  }

  lemma {:induction false} PrefixIsRun(
    server: Server, start: TxId, to: nat, count: nat, chunkSize: nat, replies: seq<Reply>)
    requires IsRun(server, start, to, count, chunkSize, replies) && replies != []
    ensures IsRun(server, start, to, count, chunkSize, replies[..|replies| - 1])
  {
    var p := replies[..|replies| - 1];
    forall k | 0 <= k < |p|
      ensures IsRound(server, start, to, count, chunkSize, p, k)
    {
      assert p[..k] == replies[..k] && IsRound(server, start, to, count, chunkSize, replies, k);
    }
  }

  lemma {:induction false} RunGrows(
    server: Server, start: TxId, to: nat, count: nat, chunkSize: nat, replies: seq<Reply>, reply: Reply)
    requires IsRun(server, start, to, count, chunkSize, replies)
    requires var s := AfterReplies(start, to, replies);
             s.GoesOn(count) && server(|replies|, s.current, s.Asks(count, chunkSize)) == Ok(reply)
    ensures IsRun(server, start, to, count, chunkSize, replies + [reply])
    ensures AfterReplies(start, to, replies + [reply]) == AfterReply(AfterReplies(start, to, replies), reply, to)
  {
    var longer := replies + [reply];
    assert longer[..|replies|] == replies;
    forall k | 0 <= k < |replies|
      ensures IsRound(server, start, to, count, chunkSize, longer, k)
    {
      assert longer[..k] == replies[..k] && IsRound(server, start, to, count, chunkSize, replies, k);
    }
  }

  /** What a call is given back: `pos` is where it started. The transactions are
      the specified ones; the cursor stands behind all that was fetched exactly
      when the last reply of the call named one; and going on from it is right
      exactly when the page shows that the cursor lies behind it. */
  ghost predicate CorrectPage(
    chain: seq<Tx>, start: TxId, to: nat, count: nat, page: Page, replies: seq<Reply>)
  {
    exists pos ::
      && IsCursor(chain, pos, start) && IsPage(chain, pos, to, count, page)
      && (ResumesAt(chain, pos, count, page) <==> LastNamesCursor(replies))
      && ResumesExactlyWhenBehind(chain, pos, to, count, page)
  }

  /** The caller's test: the cursor is older than the last transaction of the page. */
  predicate CursorIsBehind(page: Page) {
    && page.previous.Some?
    && (page.transactions == []
        || page.previous.value.lt < page.transactions[|page.transactions| - 1].id.lt)
  }

  /** The bounds to go on with: that of the page, or a lower one after a full page. */
  predicate MayLower(to: nat, lower: nat, count: nat, page: Page) {
    lower == to || (lower < to && |page.transactions| == count)
  }

  /** The page and the one from position `next` are the one page of the summed count. */
  ghost predicate PartsFit(
    chain: seq<Tx>, pos: nat, lower: nat, count1: nat, count2: nat, page: Page, next: nat)
    requires pos <= |chain| && next <= |chain|
  {
    page.transactions + Wanted(chain, next, lower, count2) == Wanted(chain, pos, lower, count1 + count2)
  }

  ghost predicate ResumesExactlyWhenBehind(chain: seq<Tx>, pos: nat, to: nat, count: nat, page: Page)
    requires pos <= |chain|
  {
    page.previous.Some? ==>
      && (exists next: nat :: IsCursor(chain, next, page.previous.value))
      && forall next: nat, lower: nat, count2: nat |
           && IsCursor(chain, next, page.previous.value) && next <= |chain|
           && count2 > 0 && MayLower(to, lower, count, page) ::
           PartsFit(chain, pos, lower, count, count2, page, next) <==> CursorIsBehind(page)
  }

  predicate LastNamesCursor(replies: seq<Reply>) {
    replies != [] && replies[|replies| - 1].previous.Some?
  }

  /** The loop so far: a piece of the chain, and how much of it lies above `to`. */
  ghost predicate Fetched(chain: seq<Tx>, pos: nat, to: nat, txs: seq<Tx>, txCount: nat) {
    pos + |txs| <= |chain| && txs == chain[pos..pos + |txs|] && txCount == CountAbove(txs, to)
  }

  /** A cursor left over from an earlier reply: it stands inside the page, or
      at the end of a page that is short although the chain goes on. */
  ghost predicate Stale(chain: seq<Tx>, pos: nat, txCount: nat, count: nat, id: TxId) {
    exists e :: IsCursor(chain, e, id) && pos <= e < |chain| && e <= pos + txCount
                && (e == pos + txCount ==> txCount < count)
  }

  ghost predicate CursorStands(chain: seq<Tx>, pos: nat, count: nat, s: Loop) {
    if s.named then
      && s.previous.Some? && IsCursor(chain, pos + |s.txs|, s.previous.value)
      && (!s.reachLt ==> s.previous == Some(s.current) && s.current.lt != 0)
    else
      && (s.previous.Some? ==> Stale(chain, pos, s.txCount, count, s.previous.value))
      && (!s.reachLt ==> s.previous.None?)
  }

  /** Where the loop stands: it goes on from the end of the piece, or it stops
      at the end of the chain or with a transaction not above `to`. */
  ghost predicate StandsAt(chain: seq<Tx>, start: TxId, to: nat, count: nat, s: Loop, pos: nat) {
    && IsCursor(chain, pos, start) && Fetched(chain, pos, to, s.txs, s.txCount) && s.txCount <= |s.txs| <= count
    && (if s.reachLt then pos + |s.txs| == |chain| || s.txCount < |s.txs|
        else s.txCount == |s.txs| && IsCursor(chain, pos + |s.txs|, s.current))
    && CursorStands(chain, pos, count, s)
  }

  lemma {:induction false} ReplyPosition(server: Server, chain: seq<Tx>, round: nat, id: TxId, n: nat)
    returns (pos: nat)
    requires Serves(server, chain) && server(round, id, n).Ok?
    ensures IsCursor(chain, pos, id) && IsReply(chain, pos, n, server(round, id, n).value)
  {
    assert ServesAt(server, chain, round, id, n);
    pos :| IsCursor(chain, pos, id) && IsReply(chain, pos, n, server(round, id, n).value);
  }

  lemma {:induction false} PieceGrows(chain: seq<Tx>, pos: nat, to: nat, txs: seq<Tx>, chunk: seq<Tx>)
    requires Fetched(chain, pos, to, txs, |txs|)
    requires pos + |txs| + |chunk| <= |chain| && chunk == chain[pos + |txs|..pos + |txs| + |chunk|]
    ensures Fetched(chain, pos, to, txs + chunk, |txs| + CountAbove(chunk, to))
    ensures CountAbove(chunk, to) <= |chunk|
  {
    CountAboveAppends(txs, chunk, to);
    CountAboveAppends(chunk, [], to);
    var mid, end := pos + |txs|, pos + |txs| + |chunk|;
    assert chain[pos..mid] + chain[mid..end] == chain[pos..end];
  }

  /** One reply takes the loop from where it stands to where it stands next,
      and either ends it or brings transactions that count. */
  lemma {:induction false} StandsStep(
    chain: seq<Tx>, start: TxId, to: nat, count: nat, s: Loop, pos: nat, n: nat, reply: Reply)
    requires Positive(chain) && StandsAt(chain, start, to, count, s, pos) && s.GoesOn(count)
    requires n <= count - s.txCount && IsReply(chain, pos + |s.txs|, n, reply)
    ensures var s' := AfterReply(s, reply, to);
            && StandsAt(chain, start, to, count, s', pos)
            && (n > 0 || s.current.lt == 0 ==> s'.reachLt || s'.txCount > s.txCount)
  {
    PieceGrows(chain, pos, to, s.txs, reply.transactions);
    CursorMoves(chain, start, to, count, s, pos, n, reply);
  }

  lemma {:induction false} CursorMoves(
    chain: seq<Tx>, start: TxId, to: nat, count: nat, s: Loop, pos: nat, n: nat, reply: Reply)
    requires Positive(chain) && StandsAt(chain, start, to, count, s, pos) && s.GoesOn(count)
    requires n <= count - s.txCount && IsReply(chain, pos + |s.txs|, n, reply)
    requires CountAbove(reply.transactions, to) <= |reply.transactions|
    ensures var s' := AfterReply(s, reply, to);
            && CursorStands(chain, pos, count, s')
            && (if s'.reachLt then pos + |s'.txs| == |chain| || s'.txCount < |s'.txs|
                else s'.txCount == |s'.txs| && IsCursor(chain, pos + |s'.txs|, s'.current))
            && (n > 0 || s.current.lt == 0 ==> s'.reachLt || s'.txCount > s.txCount)
  {
    var s' := AfterReply(s, reply, to);
    var end := pos + |s.txs|;
    if reply.previous.None? && s.previous.Some? {
      assert IsCursor(chain, end, s.previous.value) && pos <= end < |chain| && end <= pos + s'.txCount;
      assert Stale(chain, pos, s'.txCount, count, s.previous.value);
    }
  }

  lemma {:induction false} RunStandsAt(
    server: Server, chain: seq<Tx>, start: TxId, to: nat, count: nat, chunkSize: nat, replies: seq<Reply>)
    returns (pos: nat)
    requires IsChain(chain) && Serves(server, chain)
    requires IsRun(server, start, to, count, chunkSize, replies) && replies != []
    ensures StandsAt(chain, start, to, count, AfterReplies(start, to, replies), pos)
    ensures Progress(start, to, count, chunkSize, replies)
  {
    var last := |replies| - 1;
    var p := replies[..last];
    var s := AfterReplies(start, to, p);
    var n := s.Asks(count, chunkSize);
    assert IsRound(server, start, to, count, chunkSize, replies, last);
    PrefixIsRun(server, start, to, count, chunkSize, replies);
    var at := ReplyPosition(server, chain, last, s.current, n);
    if p == [] {
      pos := at;
      assert chain[pos..pos] == [];
    } else {
      pos := RunStandsAt(server, chain, start, to, count, chunkSize, p);
      CursorIsUnique(chain, at, pos + |s.txs|, s.current);
    }
    StandsStep(chain, start, to, count, s, pos, n, replies[last]);
  }

  /** The last round ended the loop or brought transactions that count. */
  predicate Progress(start: TxId, to: nat, count: nat, chunkSize: nat, replies: seq<Reply>)
    requires replies != []
  {
    var s, s' := AfterReplies(start, to, replies[..|replies| - 1]), AfterReplies(start, to, replies);
    s.Asks(count, chunkSize) > 0 || s.current.lt == 0 ==> s'.reachLt || s'.txCount > s.txCount
  }

  /** What the code returns when the loop has ended. */
  function PageOf(s: Loop): Page {
    Page(if |s.txs| > s.txCount then s.txs[..s.txCount] else s.txs, s.previous)
  }

  lemma {:induction false} RunEndIsPage(
    server: Server, chain: seq<Tx>, start: TxId, to: nat, count: nat, chunkSize: nat, replies: seq<Reply>)
    requires IsChain(chain) && Serves(server, chain)
    requires IsRun(server, start, to, count, chunkSize, replies) && !AfterReplies(start, to, replies).GoesOn(count)
    ensures count == 0 ==> PageOf(AfterReplies(start, to, replies)) == Page([], None)
    ensures count > 0 ==> CorrectPage(chain, start, to, count, PageOf(AfterReplies(start, to, replies)), replies)
  {
    var s := AfterReplies(start, to, replies);
    if replies == [] {
      return;
    }
    assert IsRound(server, start, to, count, chunkSize, replies, 0);
    var pos := RunStandsAt(server, chain, start, to, count, chunkSize, replies);
    FetchedIsWanted(chain, pos, to, count, s.txs);
    assert IsPage(chain, pos, to, count, PageOf(s));
    NamedCursorResumes(chain, start, to, count, s, pos);
    if s.previous.Some? {
      var at := CursorOfRun(chain, start, to, count, s, pos);
      forall next: nat, lower: nat, count2: nat |
        && IsCursor(chain, next, s.previous.value) && next <= |chain|
        && count2 > 0 && MayLower(to, lower, count, PageOf(s))
        ensures PartsFit(chain, pos, lower, count, count2, PageOf(s), next) <==> CursorIsBehind(PageOf(s))
      {
        CursorIsUnique(chain, next, at, s.previous.value);
        PartsFitExactlyWhenBehind(chain, pos, to, lower, count, count2, PageOf(s), next);
      }
    }
  }

  /** Where a cursor returned by a run can be: from the start on, and behind a
      full page only at its end. */
  ghost predicate ComesFromRun(chain: seq<Tx>, pos: nat, count: nat, page: Page, next: nat) {
    var end := pos + |page.transactions|;
    pos <= next <= |chain| && (|page.transactions| >= count && next >= end ==> next == end)
  }

  lemma {:induction false} CursorOfRun(
    chain: seq<Tx>, start: TxId, to: nat, count: nat, s: Loop, pos: nat) returns (next: nat)
    requires StandsAt(chain, start, to, count, s, pos) && s.previous.Some?
    ensures IsCursor(chain, next, s.previous.value) && ComesFromRun(chain, pos, count, PageOf(s), next)
  {
    if s.named {
      next := pos + |s.txs|;
    } else {
      next :| IsCursor(chain, next, s.previous.value) && pos <= next < |chain| && next <= pos + s.txCount
              && (next == pos + s.txCount ==> s.txCount < count);
    }
  }

  lemma {:induction false} NamedCursorResumes(
    chain: seq<Tx>, start: TxId, to: nat, count: nat, s: Loop, pos: nat)
    requires IsChain(chain) && StandsAt(chain, start, to, count, s, pos) && !s.GoesOn(count)
    ensures ResumesAt(chain, pos, count, PageOf(s)) <==> s.named
  {
    if s.named {
      assert FollowsPage(chain, pos, count, PageOf(s), pos + |s.txs|);
    } else if ResumesAt(chain, pos, count, PageOf(s)) {
      StaleCursorIsElsewhere(chain, pos, count, s);
    }
  }

  lemma {:induction false} StaleCursorIsElsewhere(chain: seq<Tx>, pos: nat, count: nat, s: Loop)
    requires IsChain(chain) && s.txCount <= |s.txs|
    requires s.previous.Some? ==> Stale(chain, pos, s.txCount, count, s.previous.value)
    ensures !ResumesAt(chain, pos, count, PageOf(s))
  {
    if s.previous.Some? {
      var e :| IsCursor(chain, e, s.previous.value) && pos <= e < |chain| && e <= pos + s.txCount
               && (e == pos + s.txCount ==> s.txCount < count);
      forall next | IsCursor(chain, next, s.previous.value)
        ensures next == e
      {
        CursorIsUnique(chain, next, e, s.previous.value);
      }
    }
  }

  /** One round of the loop: the run goes on, within the count, and it ends or
      comes closer to the count. */
  lemma {:induction false} OneMoreRound(
    server: Server, chain: seq<Tx>, start: TxId, to: nat, count: nat, chunkSize: nat, replies: seq<Reply>, reply: Reply)
    requires IsChain(chain) && Serves(server, chain) && Ends(start, count, chunkSize)
    requires IsRun(server, start, to, count, chunkSize, replies) && (chunkSize > 0 || replies == [])
    requires var s := AfterReplies(start, to, replies);
             s.GoesOn(count) && server(|replies|, s.current, s.Asks(count, chunkSize)) == Ok(reply)
    ensures IsRun(server, start, to, count, chunkSize, replies + [reply])
    ensures var s := AfterReplies(start, to, replies);
            var s' := AfterReply(s, reply, to);
            && AfterReplies(start, to, replies + [reply]) == s'
            && s'.txCount <= count && (s'.reachLt || (s'.txCount > s.txCount && chunkSize > 0))
  {
    RunGrows(server, start, to, count, chunkSize, replies, reply);
    var pos := RunStandsAt(server, chain, start, to, count, chunkSize, replies + [reply]);
    assert (replies + [reply])[..|replies|] == replies;
    if chunkSize == 0 {
      assert AfterReply(AfterReplies(start, to, []), reply, to).reachLt by {
        var at := ReplyPosition(server, chain, 0, start, 0);
      }
    }
  }

  /** When a call comes to an end if no server fails: see `ZeroChunkNeverEnds`. */
  predicate Ends(start: TxId, count: nat, chunkSize: nat) {
    chunkSize > 0 || count == 0 || start.lt == 0
  }

  /** The loop of `getTransactions`, and the cut to what counts, as a run of replies. */
  method FetchReplies(server: Server, ghost chain: seq<Tx>, start: TxId, to: nat, count: nat, chunkSize: nat)
    returns (r: Result<Page>, ghost replies: seq<Reply>)
    requires IsChain(chain) && Serves(server, chain) && Ends(start, count, chunkSize)
    ensures IsRun(server, start, to, count, chunkSize, replies)
    ensures r.Ok? ==>
              !AfterReplies(start, to, replies).GoesOn(count) && r.value == PageOf(AfterReplies(start, to, replies))
    ensures r.Err? ==> count > 0 && RunFails(server, start, to, count, chunkSize, replies, r.error)
  {
    var current := start;
    var txs: seq<Tx>, previous: Option<TxId> := [], None;
    var reachLt: bool, txCount: nat, round: nat := false, 0, 0;
    ghost var named := false;
    replies := [];
    while !reachLt && txCount < count
      invariant txCount <= count && |replies| == round
      invariant IsRun(server, start, to, count, chunkSize, replies)
      invariant AfterReplies(start, to, replies) == Loop(txs, txCount, current, previous, reachLt, named)
      invariant chunkSize > 0 || round == 0 || reachLt
      decreases !reachLt, count - txCount
    {
      var localChunkSize := if count - txCount > chunkSize then chunkSize else count - txCount;
      var local := server(round, current, localChunkSize);
      if local.Err? {
        return Err(local.error), replies;
      }
      OneMoreRound(server, chain, start, to, count, chunkSize, replies, local.value);
      replies := replies + [local.value];
      txs, txCount, current, previous, reachLt := TakeReply(local.value, to, txs, txCount, current, previous);
      named := local.value.previous.Some?;
      round := round + 1;
    }
    if |txs| > txCount {
      txs := txs[..txCount];
    }
    return Ok(Page(txs, previous)), replies;
  }

  /** `getTransactions` from a start cursor, by what its caller gets. */
  method FetchFrom(server: Server, ghost chain: seq<Tx>, start: TxId, to: nat, count: nat, chunkSize: nat)
    returns (r: Result<Page>, ghost replies: seq<Reply>)
    requires IsChain(chain) && Serves(server, chain) && Ends(start, count, chunkSize)
    ensures IsRun(server, start, to, count, chunkSize, replies)
    ensures r.Ok? ==>
              !AfterReplies(start, to, replies).GoesOn(count) && r.value == PageOf(AfterReplies(start, to, replies))
    ensures r.Err? ==> RunFails(server, start, to, count, chunkSize, replies, r.error)
    ensures count == 0 ==> r == Ok(Page([], None))
    ensures r.Ok? && count > 0 ==> CorrectPage(chain, start, to, count, r.value, replies)
    ensures r.Err? ==> FailedSomewhere(server, r.error)
  {
    r, replies := FetchReplies(server, chain, start, to, count, chunkSize);
    if r.Ok? {
      RunEndIsPage(server, chain, start, to, count, chunkSize, replies);
    }
  }

  /** The part of a round after its reply has come. */
  method TakeReply(
    local: Reply, to: nat, oldTxs: seq<Tx>, oldCount: nat, oldCurrent: TxId, oldPrevious: Option<TxId>)
    returns (txs: seq<Tx>, txCount: nat, current: TxId, previous: Option<TxId>, reachLt: bool)
    ensures Loop(txs, txCount, current, previous, reachLt, local.previous.Some?)
         == AfterReply(Loop(oldTxs, oldCount, oldCurrent, oldPrevious, false, false), local, to)
  {
    current, previous := oldCurrent, oldPrevious;
    var counted;
    reachLt, counted := ScanChunk(local.transactions, to);
    txCount := oldCount + counted;
    if local.previous.Some? {
      current := local.previous.value;
    } else {
      reachLt := true;
    }
    if current.lt == 0 {
      reachLt := true;
    }
    txs := oldTxs + local.transactions;
    if local.previous.Some? {
      previous := local.previous;
    }
  }

  /** Chunks of no transactions bring the loop nowhere: from a start inside the
      chain it goes on after any number of rounds. */
  lemma {:induction false} ZeroChunkNeverEnds(
    server: Server, chain: seq<Tx>, start: TxId, to: nat, count: nat, replies: seq<Reply>)
    requires IsChain(chain) && Serves(server, chain) && !Ends(start, count, 0)
    requires IsRun(server, start, to, count, 0, replies)
    ensures AfterReplies(start, to, replies).GoesOn(count)
    ensures AfterReplies(start, to, replies).txCount == 0 && AfterReplies(start, to, replies).current.lt != 0
  {
    if replies != [] {
      var last := |replies| - 1;
      var s := AfterReplies(start, to, replies[..last]);
      PrefixIsRun(server, start, to, count, 0, replies);
      ZeroChunkNeverEnds(server, chain, start, to, count, replies[..last]);
      assert IsRound(server, start, to, count, 0, replies, last);
      var pos := ReplyPosition(server, chain, last, s.current, 0);
      assert IsReply(chain, pos, 0, replies[last]) && pos < |chain|;
    }
  }

  /** What a call that starts at `start` comes to. */
  ghost predicate ComesOut(
    server: Server, chain: seq<Tx>, start: TxId, to: nat, count: nat, chunkSize: nat,
    r: Result<Page>, replies: seq<Reply>)
  {
    && IsRun(server, start, to, count, chunkSize, replies)
    && (r.Ok? ==> !AfterReplies(start, to, replies).GoesOn(count)
                  && r.value == PageOf(AfterReplies(start, to, replies)))
    && (r.Err? ==> RunFails(server, start, to, count, chunkSize, replies, r.error))
    && (count == 0 ==> r == Ok(Page([], None)))
    && (r.Ok? && count > 0 ==> CorrectPage(chain, start, to, count, r.value, replies))
    && (r.Err? ==> FailedSomewhere(server, r.error))
  }

  /** `getTransactions`: from the cursor given (both parts), or else from the
      account's last transaction, which is looked up (`head`). */
  method GetTransactions(
    server: Server, ghost chain: seq<Tx>, from: Option<TxId>, head: Result<TxId>, to: nat, count: nat, chunkSize: nat)
    returns (r: Result<Page>, ghost replies: seq<Reply>)
    requires IsChain(chain) && Serves(server, chain)
    requires from.Some? ==> Ends(from.value, count, chunkSize)
    requires from.None? && head.Ok? ==> Ends(head.value, count, chunkSize)
    ensures from.Some? ==> ComesOut(server, chain, from.value, to, count, chunkSize, r, replies)
    ensures from.None? && head.Ok? ==> ComesOut(server, chain, head.value, to, count, chunkSize, r, replies)
    ensures from.None? && head.Err? ==> r == Err(head.error) && replies == []
    // the page is the specified one from where the cursor, or else the last transaction, stands
    ensures r.Ok? && count > 0 ==>
              forall p | 0 <= p < |chain| && (from == Some(chain[p].id) || (from == None && head == Ok(chain[p].id))) ::
                r.value.transactions == Wanted(chain, p, to, count)
  {
    var start: TxId;
    if from.Some? {
      start := from.value;
    } else if head.Ok? {
      start := head.value;
    } else {
      return Err(head.error), [];
    }
    r, replies := FetchFrom(server, chain, start, to, count, chunkSize);
    if r.Ok? && count > 0 {
      ghost var pos := StartOfPage(chain, start, to, count, r.value, replies);
      forall p | 0 <= p < |chain| && chain[p].id == start
        ensures p == pos
      {
        CursorIsUnique(chain, p, pos, start);
      }
    }
  }

  /** What is wanted from position `pos`, in plain terms: the piece of the chain
      that starts there, no longer than `count`, with all of it later than `to`,
      that cannot go on. */
  lemma {:induction false} WantedMeans(chain: seq<Tx>, pos: nat, to: nat, count: nat, txs: seq<Tx>)
    requires pos <= |chain|
    ensures txs == Wanted(chain, pos, to, count)
       <==> && |txs| <= count && pos + |txs| <= |chain| && txs == chain[pos..pos + |txs|]
            && (forall i | 0 <= i < |txs| :: txs[i].id.lt > to)
            && (|txs| < count && pos + |txs| < |chain| ==> chain[pos + |txs|].id.lt <= to)
  {
    var rest := chain[pos..];
    AboveIsPrefix(rest, to);
    var wanted := Wanted(chain, pos, to, count);
    assert wanted == rest[..|wanted|] == chain[pos..pos + |wanted|];
    assert |wanted| < |rest| ==> rest[|wanted|] == chain[pos + |wanted|];
    assert StopsAfter(chain, pos, to, count, |wanted|) by {
      assert forall k | pos <= k < pos + |wanted| :: chain[k] == rest[k - pos];
    }
    if |txs| <= count && pos + |txs| <= |chain| && txs == chain[pos..pos + |txs|] {
      assert forall i | 0 <= i < |txs| :: txs[i] == chain[pos + i];
      assert forall k | pos <= k < pos + |txs| :: chain[k] == txs[k - pos];
      OneStop(chain, pos, to, count, |wanted|, |txs|);
    }
  }

  /** From position `pos` the first `n` transactions, no more than `count`, are
      later than `to`, and `n` is at its largest. */
  ghost predicate StopsAfter(chain: seq<Tx>, pos: nat, to: nat, count: nat, n: nat) {
    && n <= count && pos + n <= |chain|
    && (forall k | pos <= k < pos + n :: chain[k].id.lt > to)
    && (n < count && pos + n < |chain| ==> chain[pos + n].id.lt <= to)
  }

  lemma {:induction false} OneStop(chain: seq<Tx>, pos: nat, to: nat, count: nat, n: nat, m: nat)
    requires StopsAfter(chain, pos, to, count, n)
    ensures StopsAfter(chain, pos, to, count, m) <==> n == m
  {
  }

  /** A fetched piece that fills the count, runs past `to` or reaches the end
      of the chain contains what is wanted. */
  lemma {:induction false} FetchedIsWanted(chain: seq<Tx>, pos: nat, to: nat, count: nat, fetched: seq<Tx>)
    requires IsChain(chain) && pos + |fetched| <= |chain| && fetched == chain[pos..pos + |fetched|]
    requires CountAbove(fetched, to) <= count
    requires CountAbove(fetched, to) == count || CountAbove(fetched, to) < |fetched| || pos + |fetched| == |chain|
    ensures CountAbove(fetched, to) <= |fetched|
    ensures fetched[..CountAbove(fetched, to)] == Wanted(chain, pos, to, count)
  {
    var suffix := chain[pos..];
    assert fetched == suffix[..|fetched|];
    SuffixFalls(chain, pos);
    CountOfPrefix(suffix, |fetched|, to);
    AboveIsPrefix(suffix, to);
  }

  lemma {:induction false} CountOfPrefix(txs: seq<Tx>, n: nat, to: nat)
    requires n <= |txs| && Falling(txs)
    ensures CountAbove(txs[..n], to) == if n < |Above(txs, to)| then n else |Above(txs, to)|
  {
    if n == 0 {
    } else {
      assert txs[..n][1..] == txs[1..][..n - 1];
      SuffixFalls(txs, 1);
      assert Later(txs, 0, 1);
      CountOfPrefix(txs[1..], n - 1, to);
    }
  }

  /** The inner loop over one chunk. */
  method ScanChunk(chunk: seq<Tx>, to: nat) returns (reached: bool, counted: nat)
    ensures counted == CountAbove(chunk, to) <= |chunk|
    ensures reached <==> counted < |chunk|
  {
    reached, counted := false, 0;
    for i := 0 to |chunk|
      invariant counted + CountAbove(chunk[i..], to) == CountAbove(chunk, to)
      invariant counted <= i && (reached <==> counted < i)
    {
      if chunk[i].id.lt <= to {
        reached := true;
      } else {
        counted := counted + 1;
      }
    }
  }

  lemma {:induction false} CountAboveAppends(a: seq<Tx>, b: seq<Tx>, to: nat)
    ensures CountAbove(a + b, to) == CountAbove(a, to) + CountAbove(b, to)
    ensures CountAbove(a, to) <= |a|
  {
    if a == [] {
      assert a + b == b;
    } else {
      assert (a + b)[1..] == a[1..] + b;
      CountAboveAppends(a[1..], b, to);
    }
  }

  // ----- Resuming -----

  lemma {:induction false} AboveOfSuffix(txs: seq<Tx>, k: nat, to: nat)
    requires k <= |txs| && Falling(txs)
    ensures Above(txs[k..], to) == Above(txs, to)[if k < |Above(txs, to)| then k else |Above(txs, to)|..]
  {
    if k == 0 {
      assert txs[0..] == txs;
    } else {
      SuffixFalls(txs, 1);
      AboveOfSuffix(txs[1..], k - 1, to);
      assert txs[1..][k - 1..] == txs[k..];
      assert Later(txs, 0, k);
    }
  }

  lemma {:induction false} AboveMonotone(txs: seq<Tx>, to: nat, lower: nat)
    requires lower <= to
    ensures Above(txs, to) <= Above(txs, lower)
  {
    if txs != [] && txs[0].id.lt > to {
      AboveMonotone(txs[1..], to, lower);
    }
  }

  /** Nothing from `pos` down is later than `to`. */
  ghost predicate NothingAbove(chain: seq<Tx>, pos: int, to: nat) {
    forall i | 0 <= pos <= i < |chain| :: chain[i].id.lt <= to
  }

  lemma {:induction false} NothingAboveMeans(chain: seq<Tx>, pos: nat, p: nat, to: nat)
    requires IsChain(chain) && pos + p <= |chain|
    ensures NothingAbove(chain, pos + p, to) <==> |Above(chain[pos..], to)| <= p
  {
    AboveIsAll(chain, pos, to);
    AboveIsPrefix(chain[pos..], to);
    var a := |Above(chain[pos..], to)|;
    if a > p {
      assert chain[pos + p].id.lt > to;
    }
  }

  /** Going on from a cursor after the page, with the same bound or a lower one,
      gives the one page of the summed count exactly when the cursor stands
      right behind the page or nothing after the page is above the new bound. */
  lemma {:induction false} PagesConcatenateExactlyWhen(
    chain: seq<Tx>, pos: nat, to: nat, lower: nat, count1: nat, count2: nat, page: Page, next: nat)
    requires IsChain(chain) && IsPage(chain, pos, to, count1, page) && lower <= to
    requires FollowsPage(chain, pos, count1, page, next)
    ensures page.transactions + Wanted(chain, next, lower, count2) == Wanted(chain, pos, lower, count1 + count2)
       <==> next == pos + |page.transactions| || NothingAbove(chain, pos + |page.transactions|, lower)
  {
    var suffix := chain[pos..];
    var k, p := next - pos, |page.transactions|;
    assert suffix[k..] == chain[next..];
    SuffixFalls(chain, pos);
    AboveOfSuffix(suffix, k, lower);
    AboveMonotone(suffix, to, lower);
    AboveIsPrefix(suffix, lower);
    NothingAboveMeans(chain, pos, p, lower);
    var narrow, wide := Above(suffix, to), Above(suffix, lower);
    forall i, j | 0 <= i < j < |wide|
      ensures wide[i] != wide[j]
    {
      assert Later(suffix, i, j);
    }
    TakesConcatenateExactlyWhen(narrow, wide, k, count1, count2);
  }

  /** The same on plain sequences. */
  lemma {:induction false} TakesConcatenateExactlyWhen<T>(narrow: seq<T>, wide: seq<T>, k: nat, n: nat, m: nat)
    requires narrow <= wide && forall i, j | 0 <= i < j < |wide| :: wide[i] != wide[j]
    requires var p := |Take(narrow, n)|;
             p <= k && (p >= n ==> k == p) && (p < n && k == p ==> |wide| <= p)
    ensures Take(narrow, n) + Take(wide[if k < |wide| then k else |wide|..], m) == Take(wide, n + m)
       <==> k == |Take(narrow, n)| || |wide| <= |Take(narrow, n)|
  {
    var p := |Take(narrow, n)|;
    var rest := Take(wide[if k < |wide| then k else |wide|..], m);
    var left, right := Take(narrow, n) + rest, Take(wide, n + m);
    assert Take(narrow, n) == wide[..p];
    if k == p && p < |wide| {
      assert left == right;
    } else if |wide| <= p {
      assert left == right;
    } else {
      assert right[p] == wide[p];
      if |left| > p {
        assert left[p] == wide[k];
      }
    }
  }

  /** With the bound of the first page, going on from a cursor after it always
      gives exactly the rest ... */
  lemma {:induction false} PagesConcatenate(
    chain: seq<Tx>, pos: nat, to: nat, count1: nat, count2: nat, page: Page, next: nat)
    requires IsChain(chain) && IsPage(chain, pos, to, count1, page) && FollowsPage(chain, pos, count1, page, next)
    ensures page.transactions + Wanted(chain, next, to, count2) == Wanted(chain, pos, to, count1 + count2)
  {
    PagesConcatenateExactlyWhen(chain, pos, to, to, count1, count2, page, next);
    if next != pos + |page.transactions| {
      NothingAboveMeans(chain, pos, |page.transactions|, to);
    }
  }

  /** ... and so does a full page with any lower bound. */
  lemma {:induction false} FullPagesConcatenate(
    chain: seq<Tx>, pos: nat, to: nat, lower: nat, count1: nat, count2: nat, page: Page, next: nat)
    requires IsChain(chain) && IsPage(chain, pos, to, count1, page) && FollowsPage(chain, pos, count1, page, next)
    requires lower <= to && |page.transactions| == count1
    ensures page.transactions + Wanted(chain, next, lower, count2) == Wanted(chain, pos, lower, count1 + count2)
  {
    PagesConcatenateExactlyWhen(chain, pos, to, lower, count1, count2, page, next);
  }

  /** When the page is short, nothing after it is above its bound. */
  lemma {:induction false} ShortPageIsAll(
    chain: seq<Tx>, pos: nat, to: nat, count1: nat, count2: nat, page: Page, next: nat)
    requires IsChain(chain) && IsPage(chain, pos, to, count1, page) && |page.transactions| < count1
    requires pos + |page.transactions| <= next <= |chain|
    ensures PartsFit(chain, pos, to, count1, count2, page, next)
  {
    NothingAboveMeans(chain, pos, |page.transactions|, to);
    if next < |chain| {
      assert chain[next..][0] == chain[next];
    }
    assert Wanted(chain, next, to, count2) == [];
  }

  lemma {:induction false} BehindMeansAfterThePage(
    chain: seq<Tx>, pos: nat, to: nat, count: nat, page: Page, next: nat)
    requires IsChain(chain) && IsPage(chain, pos, to, count, page) && pos <= next
    requires page.previous.Some? && IsCursor(chain, next, page.previous.value)
    ensures CursorIsBehind(page) <==> pos + |page.transactions| <= next
  {
    if page.transactions != [] {
      var last := pos + |page.transactions| - 1;
      AboveIsPrefix(chain[pos..], to);
      assert page.transactions[last - pos] == chain[pos..][last - pos] == chain[last];
      assert Later(chain, last, next) && Later(chain, next, last);
    }
  }

  /** Exactly when going on from the cursor of a page is right, by the page alone. */
  lemma {:induction false} PartsFitExactlyWhenBehind(
    chain: seq<Tx>, pos: nat, to: nat, lower: nat, count1: nat, count2: nat, page: Page, next: nat)
    requires IsChain(chain) && IsPage(chain, pos, to, count1, page) && ComesFromRun(chain, pos, count1, page, next)
    requires page.previous.Some? && IsCursor(chain, next, page.previous.value)
    requires count2 > 0 && MayLower(to, lower, count1, page)
    ensures PartsFit(chain, pos, lower, count1, count2, page, next) <==> CursorIsBehind(page)
  {
    BehindMeansAfterThePage(chain, pos, to, count1, page, next);
    if next < pos + |page.transactions| {
      CursorInsideThePageRepeats(chain, pos, to, lower, count1, count2, page, next);
    } else if |page.transactions| < count1 {
      ShortPageIsAll(chain, pos, to, count1, count2, page, next);
    } else {
      FullPagesConcatenate(chain, pos, to, lower, count1, count2, page, next);
    }
  }

  lemma {:induction false} NothingMoreFits(
    chain: seq<Tx>, pos: nat, to: nat, lower: nat, count: nat, page: Page)
    requires IsChain(chain) && IsPage(chain, pos, to, count, page) && MayLower(to, lower, count, page)
    ensures page.transactions == Wanted(chain, pos, lower, count)
  {
    AboveMonotone(chain[pos..], to, lower);
  }

  /** Two calls, the second from the cursor the first returned, to any servers
      and with any chunk sizes and allowed bounds, give what one call for the
      summed count gives exactly when the first page shows its cursor to lie
      behind it. */
  method GetInTwoParts(
    server1: Server, server2: Server, ghost chain: seq<Tx>, from: TxId, head: Result<TxId>,
    to: nat, lower: nat, count1: nat, chunkSize1: nat, count2: nat, chunkSize2: nat)
    returns (r: Result<seq<Tx>>, first: Result<Page>, ghost replies: seq<Reply>)
    requires IsChain(chain) && Serves(server1, chain) && Serves(server2, chain)
    requires count1 > 0 && chunkSize1 > 0 && chunkSize2 > 0
    ensures IsRun(server1, from, to, count1, chunkSize1, replies) && (r.Ok? ==> first.Ok?)
    ensures r.Ok? && (count2 == 0 || first.value.previous.Some?) && MayLower(to, lower, count1, first.value) ==>
              exists pos ::
                && IsCursor(chain, pos, from) && 0 <= pos
                && (r.value == Wanted(chain, pos, lower, count1 + count2)
                    <==> count2 == 0 || CursorIsBehind(first.value))
    ensures r.Ok? && LastNamesCursor(replies) && MayLower(to, lower, count1, first.value) ==>
              count2 == 0 || CursorIsBehind(first.value)
  {
    first, replies := GetTransactions(server1, chain, Some(from), Ok(from), to, count1, chunkSize1);
    if first.Err? {
      return Err(first.error), first, replies;
    }
    var page := first.value;
    ghost var more;
    var second;
    second, more := GetTransactions(server2, chain, page.previous, head, lower, count2, chunkSize2);
    if second.Err? {
      return Err(second.error), first, replies;
    }
    r := Ok(page.transactions + second.value.transactions);
    if LastNamesCursor(replies) {
      NamedCursorIsBehind(chain, from, to, count1, page, replies);
    }
    if (count2 == 0 || page.previous.Some?) && MayLower(to, lower, count1, page) {
      ghost var pos := PartsAreOnePage(chain, from, to, lower, count1, count2, page, replies, second.value, more);
    }
  }

  lemma {:induction false} PartsAreOnePage(
    chain: seq<Tx>, from: TxId, to: nat, lower: nat, count1: nat, count2: nat,
    first: Page, replies: seq<Reply>, second: Page, more: seq<Reply>)
    returns (pos: nat)
    requires IsChain(chain) && CorrectPage(chain, from, to, count1, first, replies)
    requires (count2 == 0 || first.previous.Some?) && MayLower(to, lower, count1, first)
    requires if count2 == 0 then second.transactions == []
             else CorrectPage(chain, first.previous.value, lower, count2, second, more)
    ensures IsCursor(chain, pos, from) && pos <= |chain|
    ensures first.transactions + second.transactions == Wanted(chain, pos, lower, count1 + count2)
       <==> count2 == 0 || CursorIsBehind(first)
  {
    pos := StartOfPage(chain, from, to, count1, first, replies);
    if count2 == 0 {
      NothingMoreFits(chain, pos, to, lower, count1, first);
    } else {
      var next := StartOfPage(chain, first.previous.value, lower, count2, second, more);
      PartsFitAsPromised(chain, pos, to, lower, count1, count2, first, next);
    }
  }

  lemma {:induction false} StartOfPage(
    chain: seq<Tx>, from: TxId, to: nat, count: nat, page: Page, replies: seq<Reply>) returns (pos: nat)
    requires CorrectPage(chain, from, to, count, page, replies)
    ensures IsCursor(chain, pos, from) && IsPage(chain, pos, to, count, page)
    ensures ResumesExactlyWhenBehind(chain, pos, to, count, page)
  {
    pos :| && IsCursor(chain, pos, from) && IsPage(chain, pos, to, count, page)
           && ResumesExactlyWhenBehind(chain, pos, to, count, page);
  }

  lemma {:induction false} PartsFitAsPromised(
    chain: seq<Tx>, pos: nat, to: nat, lower: nat, count1: nat, count2: nat, page: Page, next: nat)
    requires pos <= |chain| && next <= |chain| && ResumesExactlyWhenBehind(chain, pos, to, count1, page)
    requires page.previous.Some? && IsCursor(chain, next, page.previous.value)
    requires count2 > 0 && MayLower(to, lower, count1, page)
    ensures page.transactions + Wanted(chain, next, lower, count2) == Wanted(chain, pos, lower, count1 + count2)
       <==> CursorIsBehind(page)
  {
    assert PartsFit(chain, pos, lower, count1, count2, page, next) <==> CursorIsBehind(page);
  }

  /** A cursor that the last reply named lies behind the page. */
  lemma {:induction false} NamedCursorIsBehind(
    chain: seq<Tx>, start: TxId, to: nat, count: nat, page: Page, replies: seq<Reply>)
    requires IsChain(chain) && CorrectPage(chain, start, to, count, page, replies) && LastNamesCursor(replies)
    ensures CursorIsBehind(page)
  {
    var pos :| IsCursor(chain, pos, start) && IsPage(chain, pos, to, count, page) && ResumesAt(chain, pos, count, page);
    var next :| IsCursor(chain, next, page.previous.value) && FollowsPage(chain, pos, count, page, next);
    BehindMeansAfterThePage(chain, pos, to, count, page, next);
  }

  /** From a cursor inside the page, which is what an earlier reply can leave
      when the last one names none, the second call repeats transactions. */
  lemma {:induction false} CursorInsideThePageRepeats(
    chain: seq<Tx>, pos: nat, to: nat, lower: nat, count1: nat, count2: nat, page: Page, next: nat)
    requires IsChain(chain) && IsPage(chain, pos, to, count1, page) && lower <= to
    requires pos <= next < pos + |page.transactions| && count2 > 0 && next <= |chain|
    ensures !PartsFit(chain, pos, lower, count1, count2, page, next)
  {
    var p := |page.transactions|;
    WantedIsPiece(chain, pos, to, count1);
    WantedIsPiece(chain, pos, lower, count1 + count2);
    WantedIsPiece(chain, next, lower, count2);
    assert page.transactions[next - pos] == chain[next];
    assert chain[next..][0] == chain[next] && Wanted(chain, next, lower, count2) != [];
    assert (page.transactions + Wanted(chain, next, lower, count2))[p] == chain[next];
    assert Later(chain, next, pos + p);
  }

  lemma {:induction false} WantedIsPiece(chain: seq<Tx>, pos: nat, to: nat, count: nat)
    requires pos <= |chain|
    ensures pos + |Wanted(chain, pos, to, count)| <= |chain|
    ensures forall i | 0 <= i < |Wanted(chain, pos, to, count)| ::
              Wanted(chain, pos, to, count)[i] == chain[pos + i] && chain[pos + i].id.lt > to
  {
    AboveIsPrefix(chain[pos..], to);
  }

  function At(lt: nat): Tx { Tx(TxId(lt, ""), None, []) }

  const EXAMPLE_CHAIN := [At(5), At(4), At(3)]
  const FIRST_REPLY := Reply([At(5)], Some(TxId(4, "")))
  const LAST_REPLY := Reply([At(4), At(3)], None)

  /** Gives these replies to the two requests of the call below, and fails otherwise. */
  function ExampleServer(): Server {
    (round: int, id: TxId, n: int) =>
      if round == 0 && id == TxId(5, "") && n == 2 then Ok(FIRST_REPLY)
      else if round == 1 && id == TxId(4, "") && n == 2 then Ok(LAST_REPLY)
      else Err(Error(500, "failed"))
  }

  lemma {:induction false} ExampleServes()
    ensures Serves(ExampleServer(), EXAMPLE_CHAIN)
  {
    assert EXAMPLE_CHAIN[0..1] == [At(5)] && EXAMPLE_CHAIN[1..3] == [At(4), At(3)];
    assert IsReply(EXAMPLE_CHAIN, 0, 2, FIRST_REPLY) && IsReply(EXAMPLE_CHAIN, 1, 2, LAST_REPLY);
    assert RepliesFrom(EXAMPLE_CHAIN, TxId(5, ""), 2, FIRST_REPLY);
    assert RepliesFrom(EXAMPLE_CHAIN, TxId(4, ""), 2, LAST_REPLY);
  }

  lemma {:induction false} ExampleRun()
    ensures IsRun(ExampleServer(), TxId(5, ""), 0, 4, 2, [FIRST_REPLY, LAST_REPLY])
    ensures AfterReplies(TxId(5, ""), 0, [FIRST_REPLY, LAST_REPLY])
         == Loop(EXAMPLE_CHAIN, 3, TxId(4, ""), Some(TxId(4, "")), true, false)
  {
    var start := TxId(5, "");
    CountsOfExample();
    assert IsRun(ExampleServer(), start, 0, 4, 2, []);
    RunGrows(ExampleServer(), start, 0, 4, 2, [], FIRST_REPLY);
    assert [] + [FIRST_REPLY] == [FIRST_REPLY] && [FIRST_REPLY] + [LAST_REPLY] == [FIRST_REPLY, LAST_REPLY];
    assert [] + [At(5)] == [At(5)];
    RunGrows(ExampleServer(), start, 0, 4, 2, [FIRST_REPLY], LAST_REPLY);
    assert [At(5)] + [At(4), At(3)] == EXAMPLE_CHAIN;
  }

  lemma {:induction false} CountsOfExample()
    ensures CountAbove([At(5)], 0) == 1 && CountAbove([At(4), At(3)], 0) == 2
    ensures var chain := EXAMPLE_CHAIN;
            IsChain(chain) && Above(chain, 0) == chain && Above(chain, 4) == [At(5)] && Above([At(3)], 0) == [At(3)]
  {
    var chain := EXAMPLE_CHAIN;
    assert chain[1..] == [At(4), At(3)] && [At(4), At(3)][1..] == [At(3)] && [At(3)][1..] == [] && [At(5)][1..] == [];
    assert Above([At(3)], 0) == [At(3)];
    assert Above([At(4), At(3)], 0) == [At(4)] + [At(3)];
    assert Above(chain, 0) == [At(5)] + [At(4), At(3)];
    assert CountAbove([At(3)], 0) == 1;
  }

  /** Such a call: on the chain 5, 4, 3 the first reply brings 5 and the cursor
      of 4, the second brings the rest and no cursor. The page is right, but
      its cursor is the first reply's, and going on from it brings 4 again. */
  lemma {:induction false} UnnamedLastReplyLeavesAnOldCursor()
    ensures var s := AfterReplies(TxId(5, ""), 0, [FIRST_REPLY, LAST_REPLY]);
            var page := PageOf(s);
            && IsChain(EXAMPLE_CHAIN) && Serves(ExampleServer(), EXAMPLE_CHAIN)
            && IsRun(ExampleServer(), TxId(5, ""), 0, 4, 2, [FIRST_REPLY, LAST_REPLY]) && !s.GoesOn(4)
            && IsPage(EXAMPLE_CHAIN, 0, 0, 4, page) && page.previous == Some(TxId(4, ""))
            && !ResumesAt(EXAMPLE_CHAIN, 0, 4, page)
            && !CursorIsBehind(page) && !PartsFit(EXAMPLE_CHAIN, 0, 0, 4, 1, page, 1)
  {
    ExampleServes();
    ExampleRun();
    CountsOfExample();
    var page := Page(EXAMPLE_CHAIN, Some(TxId(4, "")));
    assert EXAMPLE_CHAIN[0..] == EXAMPLE_CHAIN;
    assert IsPage(EXAMPLE_CHAIN, 0, 0, 4, page);
    CursorInsideThePageRepeats(EXAMPLE_CHAIN, 0, 0, 0, 4, 1, page, 1);
  }

  /** A page cut off by its bound has its cursor below the transactions it left
      out. On the chain 5, 4, 3 a page above 4 ends with the cursor of 3, and
      going on above 0 misses 4. */
  lemma {:induction false} LowerBoundMissesTransactions()
    ensures var chain := EXAMPLE_CHAIN;
            var page := Page([At(5)], Some(TxId(3, "")));
            && IsChain(chain) && IsPage(chain, 0, 4, 2, page) && ResumesAt(chain, 0, 2, page)
            && page.transactions + Wanted(chain, 2, 0, 2) != Wanted(chain, 0, 0, 4)
  {
    var chain := EXAMPLE_CHAIN;
    var page := Page([At(5)], Some(TxId(3, "")));
    CountsOfExample();
    assert chain[0..] == chain;
    assert IsCursor(chain, 2, TxId(3, "")) && FollowsPage(chain, 0, 2, page, 2);
    assert chain[1].id.lt > 0;
    PagesConcatenateExactlyWhen(chain, 0, 4, 0, 2, 2, page, 2);
  }
}
