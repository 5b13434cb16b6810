/** Finding the transaction that received or sent a given message
    (`tryLocateTransactionByIncomingMessage` and `...ByOutgoingMessage` in
    ton-http-api/tonlib_worker.cpp): look up blocks, take the newest
    transaction of the account in each, and search the few transactions of the
    account from there down. */
module Locate {
  import opened Results
  import opened Transactions
  import Blocks = BlockTransactions

  const BLOCK_TX_COUNT: nat := 40
  const MIN_TX_FOUND: nat := 10
  const HISTORY_COUNT: nat := 10
  const HISTORY_CHUNK: nat := 30
  const LT_STEP: nat := 1000000

  const NO_PREVIOUS := TxId(0, "AAAAAAAAAAAAAAAAAAAAAAAAAAAAAAAAAAAAAAAAAAA=")

  /** What the caller looks for: the message's other party and creation time. */
  datatype Wish =
    | Incoming(source: Address, createdLt: nat)
    | Outgoing(destination: Address, createdLt: nat)
  {
    predicate MetBy(tx: Tx) {
      match this
      case Incoming(src, lt) => tx.inMsg.Some? && tx.inMsg.value.source == Some(src) && tx.inMsg.value.createdLt == lt
      case Outgoing(dest, lt) => exists m | m in tx.outMsgs :: m.destination == Some(dest) && m.createdLt == lt
    }
  }

  /** The servers behind the search: `lookup` finds a block of a shard at a
      logical time, `blockServer` serves a block's list, `txServer` the account. */
  datatype Servers = Servers(
    shards: Result<seq<int>>,
    lookup: (int, nat) -> Result<string>,
    blockServer: string -> Blocks.Server,
    txServer: Server)

  /** What is really there: each block's list and the account's history. */
  ghost predicate Truthful(servers: Servers, blocks: string -> seq<Blocks.BlockTx>, chain: seq<Tx>) {
    && IsChain(chain) && Serves(servers.txServer, chain)
    && forall b :: GoodBlock(servers, blocks, b)
  }

  ghost predicate GoodBlock(servers: Servers, blocks: string -> seq<Blocks.BlockTx>, b: string) {
    && Blocks.IsBlock(blocks(b)) && Blocks.Serves(servers.blockServer(b), blocks(b))
    && forall i | 0 <= i < |blocks(b)| :: blocks(b)[i].Short?
  }

  /** A page, error 404 "transaction was not found", an error of an earlier
      step, or the crash of taking the value of a failed result. */
  datatype Outcome = Found(page: Page) | NotFound | Failed(error: Error) | Crashed

  // ----- The newest transaction of an account in a list -----

  function Pick(txs: seq<Blocks.BlockTx>, account: string): (Option<Blocks.BlockTx>, nat) {
    if txs == [] then (None, 0)
    else
      var (best, found) := Pick(txs[..|txs| - 1], account);
      var tx := txs[|txs| - 1];
      if tx.Key().account == account && (best.None? || best.value.Key().lt < tx.Key().lt) then (Some(tx), found + 1)
      else (best, found)
  }

  ghost predicate IsNewest(txs: seq<Blocks.BlockTx>, account: string, c: Blocks.BlockTx) {
    && c in txs && c.Key().account == account
    && forall tx | tx in txs && tx.Key().account == account :: tx.Key().lt <= c.Key().lt
  }

  /** The pick is the account's transaction of greatest logical time, if there is any. */
  lemma {:induction false} PickIsNewest(txs: seq<Blocks.BlockTx>, account: string)
    ensures Pick(txs, account).0.None? <==> forall tx | tx in txs :: tx.Key().account != account
    ensures Pick(txs, account).0.Some? ==> IsNewest(txs, account, Pick(txs, account).0.value)
    ensures Pick(txs, account).1 <= |txs| && (Pick(txs, account).1 > 0 <==> Pick(txs, account).0.Some?)
  {
    if txs != [] {
      var n := |txs| - 1;
      PickIsNewest(txs[..n], account);
      assert forall tx :: tx in txs <==> tx in txs[..n] || tx == txs[n];
    }
  }

  method PickCandidate(txs: seq<Blocks.BlockTx>, account: string)
    returns (candidate: Option<Blocks.BlockTx>, found: nat)
    ensures (candidate, found) == Pick(txs, account)
  {
    candidate, found := None, 0;
    for i := 0 to |txs|
      invariant (candidate, found) == Pick(txs[..i], account)
    {
      assert txs[..i + 1][..i] == txs[..i];
      var tx := txs[i];
      if tx.Key().account == account && (candidate.None? || candidate.value.Key().lt < tx.Key().lt) {
        found := found + 1;
        candidate := Some(tx);
      }
    }
    assert txs[..|txs|] == txs;
  }

  method Scan(txs: seq<Tx>, wish: Wish) returns (hit: Option<Tx>)
    ensures hit.None? <==> forall tx | tx in txs :: !wish.MetBy(tx)
    ensures hit.Some? ==> exists i :: 0 <= i < |txs| && txs[i] == hit.value && wish.MetBy(txs[i])
                                      && forall j | 0 <= j < i :: !wish.MetBy(txs[j])
  {
    for i := 0 to |txs|
      invariant forall j | 0 <= j < i :: !wish.MetBy(txs[j])
    {
      var tx := txs[i];
      match wish
      case Incoming(src, lt) =>
        if tx.inMsg.Some? && tx.inMsg.value.source.Some? && tx.inMsg.value.source.value == src
           && tx.inMsg.value.createdLt == lt {
          assert tx in txs && wish.MetBy(tx);
          return Some(tx);
        }
      case Outgoing(dest, lt) =>
        for k := 0 to |tx.outMsgs|
          invariant forall m | m in tx.outMsgs[..k] :: !(m.destination == Some(dest) && m.createdLt == lt)
        {
          var m := tx.outMsgs[k];
          if m.destination.Some? && m.destination.value == dest && m.createdLt == lt {
            assert tx in txs && m in tx.outMsgs && wish.MetBy(tx);
            return Some(tx);
          }
          assert tx.outMsgs[..k + 1] == tx.outMsgs[..k] + [m];
        }
        assert tx.outMsgs[..|tx.outMsgs|] == tx.outMsgs;
    }
    return None;
  }

  /** A transaction of the account that is later than all of the account's before it. */
  predicate IsRecord(txs: seq<Blocks.BlockTx>, account: string, i: int) {
    && 0 <= i < |txs| && txs[i].Key().account == account
    && forall j | 0 <= j < i && txs[j].Key().account == account :: txs[j].Key().lt < txs[i].Key().lt
  }

  function Records(txs: seq<Blocks.BlockTx>, account: string): set<int> {
    set i | 0 <= i < |txs| && IsRecord(txs, account, i)
  }

  /** The number beside the pick counts the times the newest so far was replaced. */
  lemma {:induction false} PickCountsRecords(txs: seq<Blocks.BlockTx>, account: string)
    ensures Pick(txs, account).1 == |Records(txs, account)|
  {
    if txs == [] {
      assert Records(txs, account) == {};
    } else {
      var n := |txs| - 1;
      var p := txs[..n];
      PickCountsRecords(p, account);
      forall i | 0 <= i < n
        ensures IsRecord(txs, account, i) <==> IsRecord(p, account, i)
      {
        RecordsInPrefix(txs, account, n, i);
      }
      LastIsRecord(txs, account);
      assert Records(txs, account) == Records(p, account) + if IsRecord(txs, account, n) then {n} else {};
    }
  }

  lemma {:induction false} RecordsInPrefix(txs: seq<Blocks.BlockTx>, account: string, n: nat, i: nat)
    requires i < n <= |txs|
    ensures IsRecord(txs, account, i) <==> IsRecord(txs[..n], account, i)
  {
    assert forall j | 0 <= j <= i :: txs[..n][j] == txs[j];
  }

  lemma {:induction false} LastIsRecord(txs: seq<Blocks.BlockTx>, account: string)
    requires txs != []
    ensures var n := |txs| - 1;
            IsRecord(txs, account, n) <==> Pick(txs, account).1 == Pick(txs[..n], account).1 + 1
  {
    var n := |txs| - 1;
    var p := txs[..n];
    PickIsNewest(p, account);
    assert forall j | 0 <= j < n :: p[j] == txs[j] && txs[j] in p;
    if Pick(p, account).0.Some? {
      var best := Pick(p, account).0.value;
      var k :| 0 <= k < n && p[k] == best;
      assert txs[k] == best;
    }
  }

  // ----- One block -----

  function Max(a: nat, b: nat): nat { if a < b then b else a }

  function HistoryBound(found: nat): nat { Max(found, MIN_TX_FOUND) }

  /** The history the search asks for: from the candidate down, by these replies. */
  ghost predicate HistoryEnds(
    servers: Servers, candidate: Blocks.BlockTx, bound: nat, replies: seq<Reply>, window: seq<Tx>)
    requires candidate.Short?
  {
    var start := TxId(candidate.lt, candidate.hash);
    var s := AfterReplies(start, bound, replies);
    && IsRun(servers.txServer, start, bound, 10, 30, replies)
    && !s.GoesOn(10) && window == PageOf(s).transactions
  }

  /** The newest transaction of the account in the first forty after the cursor. */
  ghost predicate IsCandidate(
    block: seq<Blocks.BlockTx>, account: string, after: Blocks.Cursor, candidate: Blocks.BlockTx, bound: nat)
  {
    var listed := Blocks.Wanted(block, after, 40);
    && Pick(listed, account).0 == Some(candidate) && IsNewest(listed, account, candidate) && candidate.Short?
    && var found := Pick(listed, account).1;
       bound == if found < 10 then 10 else found
  }

  /** A block's candidate is there, but its history cannot be fetched. */
  ghost predicate CrashesIn(servers: Servers, block: seq<Blocks.BlockTx>, account: string, after: Blocks.Cursor) {
    exists c, bound, replies, error ::
      && IsCandidate(block, account, after, c, bound)
      && RunFails(servers.txServer, TxId(c.lt, c.hash), bound, 10, 30, replies, error)
  }

  /** What is searched for one block: the account's newest transaction in the
      first forty after the cursor, and the history window that starts there. */
  ghost predicate IsWindow(
    servers: Servers, block: seq<Blocks.BlockTx>, chain: seq<Tx>, account: string, after: Blocks.Cursor,
    candidate: Blocks.BlockTx, window: seq<Tx>)
  {
    exists bound, pos, replies ::
      && IsCandidate(block, account, after, candidate, bound) && HistoryEnds(servers, candidate, bound, replies, window)
      && IsCursor(chain, pos, TxId(candidate.lt, candidate.hash)) && 0 <= pos
      && window == Wanted(chain, pos, bound, 10)
  }

  /** Nothing in this block's window meets the wish. */
  ghost predicate Barren(
    servers: Servers, block: seq<Blocks.BlockTx>, chain: seq<Tx>, account: string, after: Blocks.Cursor, wish: Wish)
  {
    || (forall tx | tx in Blocks.Wanted(block, after, 40) :: tx.Key().account != account)
    || exists c, w :: IsWindow(servers, block, chain, account, after, c, w) && forall tx | tx in w :: !wish.MetBy(tx)
  }

  /** `tx` was found in this block's window. */
  ghost predicate Yields(
    servers: Servers, block: seq<Blocks.BlockTx>, chain: seq<Tx>, account: string, after: Blocks.Cursor,
    wish: Wish, tx: Tx)
  {
    wish.MetBy(tx) && exists c, w :: IsWindow(servers, block, chain, account, after, c, w) && tx in w
  }

  datatype Search = Hit(tx: Tx) | Miss | Stop(outcome: Outcome)

  method SearchBlock(
    servers: Servers, ghost blocks: string -> seq<Blocks.BlockTx>, ghost chain: seq<Tx>,
    b: string, account: string, start: Option<Blocks.Cursor>, wish: Wish)
    returns (r: Search)
    requires Truthful(servers, blocks, chain)
    ensures var after := if start.Some? then start.value else Blocks.FIRST_CURSOR;
            && (r.Hit? ==> Yields(servers, blocks(b), chain, account, after, wish, r.tx))
            && (r.Miss? ==> Barren(servers, blocks(b), chain, account, after, wish))
            && (r.Stop? && r.outcome.Failed? ==> Blocks.FailedSomewhere(servers.blockServer(b), r.outcome.error))
            && (r.Stop? && r.outcome.Crashed? ==> CrashesIn(servers, blocks(b), account, after))
            && (r.Stop? ==> r.outcome.Failed? || r.outcome.Crashed?)
  {
    ghost var block := blocks(b);
    assert GoodBlock(servers, blocks, b);
    var listed := Blocks.GetBlockTransactions(servers.blockServer(b), block, BLOCK_TX_COUNT, start);
    if listed.Err? {
      return Stop(Failed(listed.error));
    }
    ghost var after := if start.Some? then start.value else Blocks.FIRST_CURSOR;
    var txs := listed.value.transactions;
    var candidate, found := PickCandidate(txs, account);
    PickIsNewest(txs, account);
    if candidate.None? {
      return Miss;
    }
    assert candidate.value in block;
    var from := TxId(candidate.value.lt, candidate.value.hash);
    var history;
    ghost var replies;
    history, replies := GetTransactions(
      servers.txServer, chain, Some(from), Ok(from), HistoryBound(found), HISTORY_COUNT, HISTORY_CHUNK);
    assert IsCandidate(block, account, after, candidate.value, HistoryBound(found));
    if history.Err? {
      assert RunFails(servers.txServer, from, HistoryBound(found), HISTORY_COUNT, HISTORY_CHUNK, replies,
                      history.error);
      return Stop(Crashed);
    }
    var window := history.value.transactions;
    WindowFound(servers, block, chain, account, after, candidate.value, from, history.value, replies);
    var hit := Scan(window, wish);
    return if hit.Some? then Hit(hit.value) else Miss;
  }

  lemma {:induction false} WindowFound(
    servers: Servers, block: seq<Blocks.BlockTx>, chain: seq<Tx>, account: string, after: Blocks.Cursor,
    candidate: Blocks.BlockTx, from: TxId, page: Page, replies: seq<Reply>)
    requires candidate.Short? && from == TxId(candidate.lt, candidate.hash)
    requires var bound := HistoryBound(Pick(Blocks.Wanted(block, after, BLOCK_TX_COUNT), account).1);
             && IsCandidate(block, account, after, candidate, bound)
             && CorrectPage(chain, from, bound, HISTORY_COUNT, page, replies)
             && HistoryEnds(servers, candidate, bound, replies, page.transactions)
    ensures IsWindow(servers, block, chain, account, after, candidate, page.transactions)
  {
    var bound := HistoryBound(Pick(Blocks.Wanted(block, after, BLOCK_TX_COUNT), account).1);
    var pos := StartOfPage(chain, from, bound, HISTORY_COUNT, page, replies);
    assert page.transactions == Wanted(chain, pos, bound, HISTORY_COUNT);
  }

  // ----- The two searches -----

  /** The cursor the incoming search passes: an empty account and logical time 40. */
  const INCOMING_CURSOR := Blocks.Cursor("", 40)

  /** `tx` was found in the block looked up for some shard at one of `lts`. */
  ghost predicate FoundAt(
    servers: Servers, blocks: string -> seq<Blocks.BlockTx>, chain: seq<Tx>, account: string,
    after: Blocks.Cursor, wish: Wish, shard: int, lt: nat, tx: Tx)
  {
    && servers.shards.Ok? && shard in servers.shards.value && servers.lookup(shard, lt).Ok?
    && Yields(servers, blocks(servers.lookup(shard, lt).value), chain, account, after, wish, tx)
  }

  ghost predicate BarrenAt(
    servers: Servers, blocks: string -> seq<Blocks.BlockTx>, chain: seq<Tx>, account: string,
    after: Blocks.Cursor, wish: Wish, shard: int, lt: nat)
  {
    && servers.lookup(shard, lt).Ok?
    && Barren(servers, blocks(servers.lookup(shard, lt).value), chain, account, after, wish)
  }

  /** What a search promises. Soundness: a page holds one transaction, found in
      the window of a block that was looked up. A search that reports "not
      found" has looked up every block and found each window barren. An error is
      that of the shards, a lookup or a block; a crash is a history that could
      not be fetched. */
  ghost predicate IsSearch(
    servers: Servers, blocks: string -> seq<Blocks.BlockTx>, chain: seq<Tx>, account: string,
    after: Blocks.Cursor, wish: Wish, lts: seq<nat>, r: Outcome)
  {
    && (r.Found? ==>
          && |r.page.transactions| == 1
          && r.page.previous == Some(TxId(0, "AAAAAAAAAAAAAAAAAAAAAAAAAAAAAAAAAAAAAAAAAAA="))
          && exists shard, lt :: lt in lts
               && FoundAt(servers, blocks, chain, account, after, wish, shard, lt, r.page.transactions[0]))
    && (r.NotFound? ==>
          && servers.shards.Ok?
          && forall shard, lt | shard in servers.shards.value && lt in lts ::
               BarrenAt(servers, blocks, chain, account, after, wish, shard, lt))
    && (r.Crashed? ==> exists shard, lt :: lt in lts && CrashesAt(servers, blocks, account, after, shard, lt))
    && (r.Failed? ==>
          servers.shards == Err(r.error) || exists shard, lt :: lt in lts && FailsAt(servers, shard, lt, r.error))
  }

  ghost predicate CrashesAt(
    servers: Servers, blocks: string -> seq<Blocks.BlockTx>, account: string, after: Blocks.Cursor,
    shard: int, lt: nat)
  {
    && servers.shards.Ok? && shard in servers.shards.value && servers.lookup(shard, lt).Ok?
    && CrashesIn(servers, blocks(servers.lookup(shard, lt).value), account, after)
  }

  /** The lookup of a block fails, or the server of the block found. */
  ghost predicate FailsAt(servers: Servers, shard: int, lt: nat, error: Error) {
    && servers.shards.Ok? && shard in servers.shards.value
    && match servers.lookup(shard, lt)
       case Err(e) => e == error
       case Ok(b) => Blocks.FailedSomewhere(servers.blockServer(b), error)
  }

  /** The blocks of one shard at the three logical times, one after the other. */
  method SearchShard(
    servers: Servers, ghost blocks: string -> seq<Blocks.BlockTx>, ghost chain: seq<Tx>,
    shard: int, account: string, wish: Wish, createdLt: nat, ghost lts: seq<nat>)
    returns (r: Search, ghost at: nat)
    requires Truthful(servers, blocks, chain) && servers.shards.Ok? && shard in servers.shards.value
    requires |lts| == 3 && forall i | 0 <= i < 3 :: lts[i] == createdLt + 1000000 * i
    ensures r.Miss? ==>
              forall lt | lt in lts :: BarrenAt(servers, blocks, chain, account, INCOMING_CURSOR, wish, shard, lt)
    ensures !r.Miss? ==> at in lts
    ensures r.Hit? ==> FoundAt(servers, blocks, chain, account, INCOMING_CURSOR, wish, shard, at, r.tx)
    ensures r.Stop? ==>
              || (r.outcome.Crashed? && CrashesAt(servers, blocks, account, INCOMING_CURSOR, shard, at))
              || (r.outcome.Failed? && FailsAt(servers, shard, at, r.outcome.error))
  {
    at := 0;
    for i := 0 to 3
      invariant forall k | 0 <= k < i ::
                  BarrenAt(servers, blocks, chain, account, INCOMING_CURSOR, wish, shard, lts[k])
    {
      var lt := createdLt + LT_STEP * i;
      at := lt;
      assert lt == lts[i];
      var block := servers.lookup(shard, lt);
      if block.Err? {
        return Stop(Failed(block.error)), at;
      }
      r := SearchBlock(servers, blocks, chain, block.value, account, Some(INCOMING_CURSOR), wish);
      if !r.Miss? {
        return;
      }
    }
    r := Miss;
    forall lt | lt in lts
      ensures BarrenAt(servers, blocks, chain, account, INCOMING_CURSOR, wish, shard, lt)
    {
      var k :| 0 <= k < 3 && lts[k] == lt;
    }
  }

  method ByIncomingMessage(
    servers: Servers, ghost blocks: string -> seq<Blocks.BlockTx>, ghost chain: seq<Tx>,
    source: Result<Address>, destination: Result<Address>, createdLt: nat)
    returns (r: Outcome)
    requires Truthful(servers, blocks, chain)
    ensures source.Err? ==> r == Failed(source.error)
    ensures source.Ok? && destination.Err? ==> r == Failed(destination.error)
    ensures source.Ok? && destination.Ok? ==>
              IsSearch(servers, blocks, chain, destination.value.account, Blocks.Cursor("", 40),
                       Incoming(source.value, createdLt), [createdLt, createdLt + 1000000, createdLt + 2000000], r)
  {
    if source.Err? {
      return Failed(source.error);
    }
    if destination.Err? {
      return Failed(destination.error);
    }
    if servers.shards.Err? {
      return Failed(servers.shards.error);
    }
    ghost var lts := [createdLt, createdLt + 1000000, createdLt + 2000000];
    var account, wish := destination.value.account, Incoming(source.value, createdLt);
    var shards := servers.shards.value;
    for s := 0 to |shards|
      invariant forall k, lt | 0 <= k < s && lt in lts ::
                  BarrenAt(servers, blocks, chain, account, INCOMING_CURSOR, wish, shards[k], lt)
    {
      var search, at := SearchShard(servers, blocks, chain, shards[s], account, wish, createdLt, lts);
      match search
      case Stop(outcome) => return outcome;
      case Hit(tx) =>
        r := Found(Page([tx], Some(NO_PREVIOUS)));
        assert FoundAt(servers, blocks, chain, account, INCOMING_CURSOR, wish, shards[s], at, r.page.transactions[0]);
        return;
      case Miss =>
    }
    return NotFound;
  }

  method ByOutgoingMessage(
    servers: Servers, ghost blocks: string -> seq<Blocks.BlockTx>, ghost chain: seq<Tx>,
    source: Result<Address>, destination: Result<Address>, createdLt: nat)
    returns (r: Outcome)
    requires Truthful(servers, blocks, chain)
    ensures source.Err? ==> r == Failed(source.error)
    ensures source.Ok? && destination.Err? ==> r == Failed(destination.error)
    ensures source.Ok? && destination.Ok? ==>
              IsSearch(servers, blocks, chain, source.value.account, Blocks.FIRST_CURSOR,
                       Outgoing(destination.value, createdLt), [createdLt], r)
  {
    if source.Err? {
      return Failed(source.error);
    }
    if destination.Err? {
      return Failed(destination.error);
    }
    if servers.shards.Err? {
      return Failed(servers.shards.error);
    }
    var account, wish := source.value.account, Outgoing(destination.value, createdLt);
    var shards := servers.shards.value;
    for s := 0 to |shards|
      invariant forall k | 0 <= k < s ::
                  BarrenAt(servers, blocks, chain, account, Blocks.FIRST_CURSOR, wish, shards[k], createdLt)
    {
      assert createdLt in [createdLt];
      var block := servers.lookup(shards[s], createdLt);
      if block.Err? {
        assert FailsAt(servers, shards[s], createdLt, block.error);
        return Failed(block.error);
      }
      var search := SearchBlock(servers, blocks, chain, block.value, account, None, wish);
      match search
      case Stop(outcome) =>
        assert if outcome.Crashed? then CrashesAt(servers, blocks, account, Blocks.FIRST_CURSOR, shards[s], createdLt)
               else FailsAt(servers, shards[s], createdLt, outcome.error);
        return outcome;
      case Hit(tx) =>
        r := Found(Page([tx], Some(NO_PREVIOUS)));
        assert createdLt in [createdLt];
        assert FoundAt(servers, blocks, chain, account, Blocks.FIRST_CURSOR, wish, shards[s], createdLt,
                       r.page.transactions[0]);
        return;
      case Miss =>
    }
    return NotFound;
  }

  // ----- What an answer means, and what it cannot be -----

  /** The block's newest listed transaction of the account, and the history
      from it down, that lead to `tx`. */
  ghost predicate UnderCandidate(
    servers: Servers, blocks: string -> seq<Blocks.BlockTx>, chain: seq<Tx>, account: string,
    after: Blocks.Cursor, shard: int, lt: nat, candidate: Blocks.BlockTx, k: nat, tx: Tx)
  {
    && servers.lookup(shard, lt).Ok?
    && IsNewest(Blocks.Wanted(blocks(servers.lookup(shard, lt).value), after, 40), account, candidate)
    && k < |chain| && chain[k] == tx && tx.id.lt <= candidate.Key().lt
  }

  /** Soundness of a search: the answer is one transaction of the account's
      history that meets the wish, at or below the newest of the account's
      transactions listed for a block that was looked up. It is never one whose
      logical time is at most ten: the bound handed to `getTransactions` is the
      number of candidates, at least ten, in the place of a logical time. */
  lemma {:induction false} AnswersAreSound(
    servers: Servers, blocks: string -> seq<Blocks.BlockTx>, chain: seq<Tx>, account: string,
    after: Blocks.Cursor, wish: Wish, lts: seq<nat>, r: Outcome)
    requires IsChain(chain) && IsSearch(servers, blocks, chain, account, after, wish, lts, r) && r.Found?
    ensures |r.page.transactions| == 1
    ensures var tx := r.page.transactions[0];
            && tx.id.lt > 10
            && (wish.Incoming? ==>
                  && tx.inMsg.Some? && tx.inMsg.value.source == Some(wish.source)
                  && tx.inMsg.value.createdLt == wish.createdLt)
            && (wish.Outgoing? ==>
                  exists m | m in tx.outMsgs ::
                    m.destination == Some(wish.destination) && m.createdLt == wish.createdLt)
            && exists shard, lt, c, k ::
                 lt in lts && UnderCandidate(servers, blocks, chain, account, after, shard, lt, c, k, tx)
  {
    var tx := r.page.transactions[0];
    var shard, lt :| lt in lts && FoundAt(servers, blocks, chain, account, after, wish, shard, lt, tx);
    var block := blocks(servers.lookup(shard, lt).value);
    var c, w :| IsWindow(servers, block, chain, account, after, c, w) && tx in w;
    var k := InWindow(servers, block, chain, account, after, c, w, tx);
    assert UnderCandidate(servers, blocks, chain, account, after, shard, lt, c, k, tx);
  }

  /** A search that finds nothing has missed nothing: in each block looked up
      the first forty transactions have none of the account, or the window from
      its newest one down holds no transaction with the message asked for. */
  lemma {:induction false} NothingIsMissed(
    servers: Servers, blocks: string -> seq<Blocks.BlockTx>, chain: seq<Tx>, account: string,
    after: Blocks.Cursor, wish: Wish, lts: seq<nat>, r: Outcome, shard: int, lt: nat)
    requires IsSearch(servers, blocks, chain, account, after, wish, lts, r) && r.NotFound?
    requires servers.shards.Ok? && shard in servers.shards.value && lt in lts
    ensures servers.lookup(shard, lt).Ok?
    ensures var block := blocks(servers.lookup(shard, lt).value);
            || (forall tx | tx in Blocks.Wanted(block, after, 40) :: tx.Key().account != account)
            || exists c, w :: IsWindow(servers, block, chain, account, after, c, w) && HasNone(w, wish)
  {
    assert BarrenAt(servers, blocks, chain, account, after, wish, shard, lt);
    var block := blocks(servers.lookup(shard, lt).value);
    if c, w :| IsWindow(servers, block, chain, account, after, c, w) && forall tx | tx in w :: !wish.MetBy(tx) {
      forall i | 0 <= i < |w|
        ensures !wish.MetBy(w[i])
      {
        assert w[i] in w;
      }
      assert HasNone(w, wish);
    }
  }

  /** No transaction of the list received, or sent, the message asked for. */
  ghost predicate HasNone(txs: seq<Tx>, wish: Wish) {
    forall i | 0 <= i < |txs| ::
      && (wish.Incoming? && txs[i].inMsg.Some? ==>
            txs[i].inMsg.value.source != Some(wish.source) || txs[i].inMsg.value.createdLt != wish.createdLt)
      && (wish.Outgoing? ==>
            forall m | m in txs[i].outMsgs :: m.destination != Some(wish.destination) || m.createdLt != wish.createdLt)
  }

  lemma {:induction false} InWindow(
    servers: Servers, block: seq<Blocks.BlockTx>, chain: seq<Tx>, account: string, after: Blocks.Cursor,
    candidate: Blocks.BlockTx, window: seq<Tx>, tx: Tx)
    returns (k: nat)
    requires IsChain(chain) && IsWindow(servers, block, chain, account, after, candidate, window) && tx in window
    ensures k < |chain| && chain[k] == tx && 10 < tx.id.lt <= candidate.Key().lt
  {
    var bound, pos, replies :|
      && IsCandidate(block, account, after, candidate, bound) && HistoryEnds(servers, candidate, bound, replies, window)
      && IsCursor(chain, pos, TxId(candidate.lt, candidate.hash)) && 0 <= pos
      && window == Wanted(chain, pos, bound, HISTORY_COUNT);
    AboveIsPrefix(chain[pos..], bound);
    var i :| 0 <= i < |window| && window[i] == tx;
    k := pos + i;
    assert tx == chain[pos..][i] == chain[k];
    assert chain[pos].id.lt == candidate.lt && Later(chain, pos, k);
  }

  // ----- When the account's server fails -----

  ghost predicate AlwaysFails(server: Server) {
    forall round, id, n :: server(round, id, n).Err?
  }

  lemma {:induction false} NoHistoryWithoutReplies(
    servers: Servers, block: seq<Blocks.BlockTx>, chain: seq<Tx>, account: string, after: Blocks.Cursor,
    candidate: Blocks.BlockTx, window: seq<Tx>)
    requires AlwaysFails(servers.txServer)
    ensures !IsWindow(servers, block, chain, account, after, candidate, window)
  {
    forall bound, replies | candidate.Short?
      ensures !HistoryEnds(servers, candidate, bound, replies, window)
    {
      NoRunWithoutReplies(
        servers.txServer, TxId(candidate.lt, candidate.hash), bound, HISTORY_COUNT, HISTORY_CHUNK, replies);
    }
  }

  lemma {:induction false} NoRunWithoutReplies(
    server: Server, start: TxId, to: nat, count: nat, chunkSize: nat, replies: seq<Reply>)
    requires AlwaysFails(server) && count > 0
    ensures IsRun(server, start, to, count, chunkSize, replies) ==> AfterReplies(start, to, replies).GoesOn(count)
  {
    if replies != [] {
      assert !IsRound(server, start, to, count, chunkSize, replies, 0);
    }
  }

  /** Such an input: when every other step succeeds, each block looked up lists
      the account, and the account's server fails, a search ends in a crash, not
      in that server's error. */
  lemma {:induction false} FailingHistoryCrashesTheSearch(
    servers: Servers, blocks: string -> seq<Blocks.BlockTx>, chain: seq<Tx>, account: string,
    after: Blocks.Cursor, wish: Wish, lts: seq<nat>, r: Outcome)
    requires IsSearch(servers, blocks, chain, account, after, wish, lts, r) && lts != []
    requires servers.shards.Ok? && servers.shards.value != [] && AlwaysFails(servers.txServer)
    requires forall shard, lt | shard in servers.shards.value && lt in lts ::
               ListsAccount(servers, blocks, account, after, shard, lt)
    ensures r.Crashed?
  {
    var shard, lt := servers.shards.value[0], lts[0];
    assert ListsAccount(servers, blocks, account, after, shard, lt);
    forall block, c, w
      ensures !IsWindow(servers, block, chain, account, after, c, w)
    {
      NoHistoryWithoutReplies(servers, block, chain, account, after, c, w);
    }
    assert !BarrenAt(servers, blocks, chain, account, after, wish, shard, lt);
    forall s, l, error | s in servers.shards.value && l in lts
      ensures !FailsAt(servers, s, l, error)
    {
      assert ListsAccount(servers, blocks, account, after, s, l);
    }
  }

  /** The block is found and served without failure, and lists the account. */
  ghost predicate ListsAccount(
    servers: Servers, blocks: string -> seq<Blocks.BlockTx>, account: string, after: Blocks.Cursor,
    shard: int, lt: nat)
  {
    && servers.lookup(shard, lt).Ok?
    && var b := servers.lookup(shard, lt).value;
       && (forall error :: !Blocks.FailedSomewhere(servers.blockServer(b), error))
       && exists tx :: tx in Blocks.Wanted(blocks(b), after, 40) && tx.Key().account == account
  }
}
