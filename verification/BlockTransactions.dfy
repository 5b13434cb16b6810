/** The transactions of one block, fetched in chunks (`getBlockTransactions`
    and `getBlockTransactionsExt` in ton-http-api/tonlib_worker.cpp). The two
    functions differ in the kind of transaction they carry; the loop is the same. */
module BlockTransactions {
  import opened Results
  import opened Lexicographic
  import Account = Transactions

  const CHUNK_SIZE: nat := 256

  /** A place in the block's order: by account, then by logical time. */
  datatype Cursor = Cursor(account: string, lt: nat)

  /** The start of every block: 32 zero bytes and logical time 0. */
  const FIRST_CURSOR := Cursor(seq(32, i => '\0'), 0)

  datatype BlockTx =
    | Short(account: string, lt: nat, hash: string)
    | Ext(address: Account.Address, tx: Account.Tx)
  {
    function Key(): Cursor {
      match this
      case Short(a, l, _) => Cursor(a, l)
      case Ext(a, t) => Cursor(a.account, t.id.lt)
    }
  }

  predicate Before(c: Cursor, d: Cursor) {
    Less(c.account, d.account) || (c.account == d.account && c.lt < d.lt)
  }

  lemma {:induction false} BeforeIsStrictOrder(c: Cursor, d: Cursor, e: Cursor)
    ensures !Before(c, c)
    ensures Before(c, d) && Before(d, e) ==> Before(c, e)
  {
    Irreflexive(c.account);
    if Less(c.account, d.account) && Less(d.account, e.account) {
      Transitive(c.account, d.account, e.account);
    }
  }

  predicate InOrder(block: seq<BlockTx>, i: int, j: int) {
    0 <= i < j < |block| ==> Before(block[i].Key(), block[j].Key())
  }

  ghost predicate IsBlock(block: seq<BlockTx>) {
    forall i, j :: InOrder(block, i, j)
  }

  /** The position of the first transaction strictly after the cursor. */
  function StartAfter(block: seq<BlockTx>, c: Cursor): (pos: nat)
    ensures pos <= |block|
  {
    if block == [] || Before(c, block[0].Key()) then 0 else 1 + StartAfter(block[1..], c)
  }

  lemma {:induction false} StartAfterIsFirst(block: seq<BlockTx>, c: Cursor)
    ensures forall i | 0 <= i < StartAfter(block, c) :: !Before(c, block[i].Key())
    ensures StartAfter(block, c) < |block| ==> Before(c, block[StartAfter(block, c)].Key())
  {
    if block == [] || Before(c, block[0].Key()) {
    } else {
      StartAfterIsFirst(block[1..], c);
      forall i | 0 < i < StartAfter(block, c)
        ensures !Before(c, block[i].Key())
      {
        assert block[i] == block[1..][i - 1];
      }
    }
  }

  lemma {:induction false} ZerosComeFirst(zeros: string, s: string)
    requires |zeros| == |s| && forall i | 0 <= i < |zeros| :: zeros[i] == '\0'
    ensures zeros == s || Less(zeros, s)
  {
    if s != [] {
      ZerosComeFirst(zeros[1..], s[1..]);
      assert zeros == [zeros[0]] + zeros[1..] && s == [s[0]] + s[1..];
    }
  }

  /** The first cursor lies before every transaction of a block whose accounts
      have 32 bytes: from there the fetch returns the first `count` of the block. */
  lemma {:induction false} FirstCursorIsFirst(block: seq<BlockTx>, count: nat)
    requires block != [] ==> |block[0].Key().account| == 32 && block[0].Key().lt > 0
    ensures StartAfter(block, FIRST_CURSOR) == 0
    ensures Wanted(block, FIRST_CURSOR, count) == if count < |block| then block[..count] else block
  {
    if block != [] {
      ZerosComeFirst(FIRST_CURSOR.account, block[0].Key().account);
    }
    assert block[0..] == block;
  }

  datatype Reply = Reply(transactions: seq<BlockTx>, incomplete: bool)

  type Server = (int, Cursor, int) -> Result<Reply>

  /** A piece of the block from `pos`, no longer than asked, not empty while
      transactions remain, with `incomplete` telling whether any remain after it. */
  ghost predicate IsReply(block: seq<BlockTx>, pos: nat, n: int, r: Reply) {
    && pos + |r.transactions| <= |block|
    && r.transactions == block[pos..pos + |r.transactions|]
    && |r.transactions| <= n
    && (pos < |block| && n > 0 ==> r.transactions != [])
    && (r.incomplete <==> pos + |r.transactions| < |block|)
  }

  ghost predicate Serves(server: Server, block: seq<BlockTx>) {
    forall round, c, n: int | n >= 0 ::
      server(round, c, n).Ok? ==> IsReply(block, StartAfter(block, c), n, server(round, c, n).value)
  }

  ghost predicate FailedSomewhere(server: Server, error: Error) {
    exists round, c, n: int :: n >= 0 && server(round, c, n) == Err(error)
  }

  /** One unchunked fetch: at most `count` transactions strictly after the cursor. */
  function Wanted(block: seq<BlockTx>, after: Cursor, count: nat): seq<BlockTx> {
    Account.Take(block[StartAfter(block, after)..], count)
  }

  lemma {:induction false} NextStart(block: seq<BlockTx>, p: nat)
    requires IsBlock(block) && p < |block|
    ensures StartAfter(block, block[p].Key()) == p + 1
  {
    var c := block[p].Key();
    var pos := StartAfter(block, c);
    StartAfterIsFirst(block, c);
    assert InOrder(block, pos, p) && InOrder(block, p, p + 1);
    if pos <= p {
      BeforeIsStrictOrder(c, block[pos].Key(), c);
    }
  }

  datatype Page = Page(transactions: seq<BlockTx>, incomplete: bool, reqCount: nat)

  /** The loop so far: a piece of the block, and a cursor at its end. */
  ghost predicate Stands(block: seq<BlockTx>, pos: nat, txs: seq<BlockTx>, after: Cursor) {
    pos + |txs| <= |block| && txs == block[pos..pos + |txs|] && StartAfter(block, after) == pos + |txs|
  }

  lemma {:induction false} NextRound(
    block: seq<BlockTx>, pos: nat, txs: seq<BlockTx>, after: Cursor, n: nat, reply: Reply)
    requires IsBlock(block) && Stands(block, pos, txs, after) && IsReply(block, StartAfter(block, after), n, reply)
    ensures var chunk := reply.transactions;
            && Stands(block, pos, txs + chunk, if chunk == [] then after else chunk[|chunk| - 1].Key())
            && (reply.incomplete <==> pos + |txs + chunk| < |block|)
            && |chunk| <= n && (reply.incomplete && n > 0 ==> chunk != [])
  {
    var chunk := reply.transactions;
    var end := pos + |txs| + |chunk|;
    PieceGrows(block, pos, txs, chunk);
    if chunk != [] {
      NextStart(block, end - 1);
    }
  }

  lemma {:induction false} PieceGrows<T>(s: seq<T>, pos: nat, piece: seq<T>, more: seq<T>)
    requires pos + |piece| + |more| <= |s| && piece == s[pos..pos + |piece|]
    requires more == s[pos + |piece|..pos + |piece| + |more|]
    ensures piece + more == s[pos..pos + |piece + more|]
    ensures more != [] ==> more[|more| - 1] == s[pos + |piece| + |more| - 1]
  {
    var mid, end := pos + |piece|, pos + |piece| + |more|;
    assert s[pos..mid] + s[mid..end] == s[pos..end];
  }

  /** The chunked fetch equals one unchunked fetch, whatever the server's chunk
      lengths, and `incomplete` tells exactly whether transactions remain. The
      number left to fetch never goes below zero and falls in every round but
      the last. An error is always one a server gave. */
  method GetBlockTransactions(
    server: Server, ghost block: seq<BlockTx>, count: nat, start: Option<Cursor>)
    returns (r: Result<Page>)
    requires IsBlock(block) && Serves(server, block)
    ensures r.Ok? ==>
              var after := if start.Some? then start.value else FIRST_CURSOR;
              && r.value.transactions == Wanted(block, after, count)
              && (r.value.incomplete <==> StartAfter(block, after) + |r.value.transactions| < |block|)
              && r.value.reqCount == count
    ensures r.Ok? && start.None? && (block != [] ==> |block[0].Key().account| == 32 && block[0].Key().lt > 0) ==>
              r.value.transactions == if count < |block| then block[..count] else block
    ensures r.Err? ==> FailedSomewhere(server, r.error)
  {
    var after := if start.Some? then start.value else FIRST_CURSOR;
    ghost var pos := StartAfter(block, after);
    var leftCount: nat, isFinished, round := count, false, 0;
    var txs: seq<BlockTx>, incomplete := [], true;
    while !isFinished
      invariant Stands(block, pos, txs, after) && leftCount + |txs| == count
      invariant round > 0 ==> (incomplete <==> pos + |txs| < |block|)
      invariant isFinished ==> round > 0 && (leftCount == 0 || !incomplete)
      invariant round > 0 && !isFinished ==> leftCount > 0 && incomplete
      decreases !isFinished, leftCount
    {
      var chunkSize := if leftCount > CHUNK_SIZE then CHUNK_SIZE else leftCount;
      var local := server(round, after, chunkSize);
      if local.Err? {
        return Err(local.error);
      }
      var chunk := local.value.transactions;
      NextRound(block, pos, txs, after, chunkSize, local.value);
      incomplete := local.value.incomplete;
      leftCount := leftCount - |chunk|;
      if chunk != [] {
        after := chunk[|chunk| - 1].Key();
      }
      txs := txs + chunk;
      round := round + 1;
      isFinished := leftCount <= 0 || !local.value.incomplete;
    }
    if start.None? && (block != [] ==> |block[0].Key().account| == 32 && block[0].Key().lt > 0) {
      FirstCursorIsFirst(block, count);
    }
    return Ok(Page(txs, incomplete, count));
  }

  function Keys(txs: seq<BlockTx>): seq<Cursor> {
    seq(|txs|, i requires 0 <= i < |txs| => txs[i].Key())
  }

  /** The short and the extended list of one block name the same places, so
      the two fetches return the same transactions. */
  lemma {:induction false} BothKindsAgree(short: seq<BlockTx>, ext: seq<BlockTx>, after: Cursor, count: nat)
    requires Keys(short) == Keys(ext)
    ensures StartAfter(short, after) == StartAfter(ext, after)
    ensures Keys(Wanted(short, after, count)) == Keys(Wanted(ext, after, count))
  {
    assert |Keys(short)| == |short| && |Keys(ext)| == |ext|;
    SameStart(short, ext, after);
    var pos := StartAfter(short, after);
    forall i | 0 <= i < |short|
      ensures short[i].Key() == ext[i].Key()
    {
      assert Keys(short)[i] == Keys(ext)[i];
    }
  }

  lemma {:induction false} SameStart(short: seq<BlockTx>, ext: seq<BlockTx>, after: Cursor)
    requires Keys(short) == Keys(ext)
    ensures StartAfter(short, after) == StartAfter(ext, after)
  {
    assert |Keys(short)| == |short| && |Keys(ext)| == |ext|;
    if short != [] {
      assert Keys(short)[0] == Keys(ext)[0];
      forall i | 0 <= i < |short| - 1
        ensures short[1..][i].Key() == ext[1..][i].Key()
      {
        assert Keys(short)[i + 1] == Keys(ext)[i + 1];
      }
      assert Keys(short[1..]) == Keys(ext[1..]);
      SameStart(short[1..], ext[1..], after);
    }
  }
}
