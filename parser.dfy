/** The parser's state machine (eth_parser/parser.go): the sync cursor, the address index,
    subscription, lookup, block fetching and the sync sweep. The JSON-RPC node is an
    oracle value passed to each operation that talks to it. */
module EthParser {
  import opened EthTypes
  import opened HexCodec
  import opened AddressIndex
  import opened SeqFacts

  /** The node as one operation sees it: the decoded `result` of eth_blockNumber, and of
      eth_getBlockByNumber for each hex height asked for; None where the request or its
      decoding fails. */
  datatype Rpc = Rpc(blockNumber: Option<string>, blockByNumber: string -> Option<Block>)

  /** The error fetchTransactions returns; it names the height that could not be fetched. */
  datatype FetchError = FetchError(blockNumber: nat)

  /** The chain head, or the sentinel -1 when the request fails. */
  function GetCurrentBlock(node: Rpc): (height: int)
    ensures height >= -1
    ensures height == -1 <==> node.blockNumber.None?
  {
    match node.blockNumber
    case None => -1
    case Some(hex) => HexToDec(hex)
  }

  /** A node that reports head n in the "0x%x" form is read back as n. */
  lemma GetCurrentBlockReadsHead(node: Rpc, n: nat)
    requires n <= MaxInt64
    requires node.blockNumber == Some(DecToHex(n))
    ensures GetCurrentBlock(node) == n
  {
    RoundTrip(n);
  }

  /** A JSON-RPC error reply decodes with an empty result, which reads as head 0 rather
      than as a failed request; a tick then moves the cursor back to 0. */
  lemma EmptyResultReadsAsZero(node: Rpc)
    requires node.blockNumber == Some("")
    ensures GetCurrentBlock(node) == 0
  {
  }

  /** The node's answer for each height, asked for in the "0x%x" form. */
  function BlocksByHeight(node: Rpc): nat -> Option<Block>
  {
    (h: nat) => node.blockByNumber(DecToHex(h))
  }

  /** One height of the sweep: a fetched block is applied, a failed one changes nothing. */
  function ApplyHeight(blocks: nat -> Option<Block>, m: Index, h: nat): (m': Index)
    ensures m'.Keys == m.Keys
  {
    match blocks(h)
    case None => m
    case Some(block) => ApplyTxs(m, block.transactions)
  }

  /** The sweep over heights lo..hi in ascending order (empty when hi < lo). */
  function SyncRange(blocks: nat -> Option<Block>, m: Index, lo: nat, hi: int): (m': Index)
    decreases hi - lo
    ensures m'.Keys == m.Keys
  {
    if hi < lo then m else ApplyHeight(blocks, SyncRange(blocks, m, lo, hi - 1), hi)
  }

  /** Reference definition: what height h contributes to the list of a. */
  function HeightHits(blocks: nat -> Option<Block>, a: string, h: nat): seq<Transaction>
  {
    match blocks(h)
    case None => []
    case Some(block) => Matching(a, block.transactions)
  }

  /** HeightHits for a fixed address, as a function of the height. */
  function HitsAt(blocks: nat -> Option<Block>, a: string): nat -> seq<Transaction>
  {
    (h: nat) => HeightHits(blocks, a, h)
  }

  /** Reference definition: the contributions of heights lo..hi to a, lowest height first. */
  function RangeHits(blocks: nat -> Option<Block>, a: string, lo: nat, hi: int): seq<Transaction>
  {
    ConcatRange(HitsAt(blocks, a), lo, hi)
  }

  /** One height appends that height's contribution to every subscribed list. */
  lemma ApplyHeightAppends(blocks: nat -> Option<Block>, m: Index, h: nat, a: string)
    requires a in m
    ensures a in ApplyHeight(blocks, m, h)
    ensures ApplyHeight(blocks, m, h)[a] == m[a] + HeightHits(blocks, a, h)
  {
    match blocks(h)
    case None =>
      AppendEmpty(m[a]);
    case Some(block) =>
      ApplyTxsAppends(m, block.transactions, a);
  }

  /** The contributions can be peeled from the top height as well. */
  lemma RangeHitsSnoc(blocks: nat -> Option<Block>, a: string, lo: nat, hi: nat)
    requires lo <= hi
    ensures RangeHits(blocks, a, lo, hi) == RangeHits(blocks, a, lo, hi - 1) + HeightHits(blocks, a, hi)
  {
    ConcatRangeSnoc(HitsAt(blocks, a), lo, hi);
  }

  /** The sweep appends to every subscribed list, at its end, the matching transactions of
      each fetched height, in ascending height order; failed heights contribute nothing. */
  lemma {:induction false} SyncRangeAppends(blocks: nat -> Option<Block>, m: Index, lo: nat, hi: int, a: string)
    requires a in m
    ensures a in SyncRange(blocks, m, lo, hi)
    ensures SyncRange(blocks, m, lo, hi)[a] == m[a] + RangeHits(blocks, a, lo, hi)
    decreases hi - lo
  {
    if lo <= hi {
      var before := SyncRange(blocks, m, lo, hi - 1);
      SyncRangeAppends(blocks, m, lo, hi - 1, a);
      RangeHitsSnoc(blocks, a, lo, hi);
      ApplyHeightAppends(blocks, before, hi, a);
      AppendAssoc(m[a], RangeHits(blocks, a, lo, hi - 1), HeightHits(blocks, a, hi));
    } else {
      AppendEmpty(m[a]);
    }
  }

  /** Within one sweep, a height whose fetch fails contributes nothing: the sweep's
      contribution is that of the heights below it followed by that of the heights above it. */
  lemma FailedHeightIsSkipped(blocks: nat -> Option<Block>, a: string, lo: nat, h: nat, hi: int)
    requires lo <= h <= hi
    requires blocks(h).None?
    ensures RangeHits(blocks, a, lo, hi) == RangeHits(blocks, a, lo, h - 1) + RangeHits(blocks, a, h + 1, hi)
  {
    ConcatRangeSplit(HitsAt(blocks, a), lo, h, hi);
  }

  /** Two consecutive sweeps against the same node are one sweep over the joined range. */
  lemma {:induction false} SyncRangeConcat(blocks: nat -> Option<Block>, m: Index, lo: nat, mid: nat, hi: int)
    requires lo <= mid <= hi + 1
    ensures SyncRange(blocks, SyncRange(blocks, m, lo, mid - 1), mid, hi) == SyncRange(blocks, m, lo, hi)
    decreases hi - mid
  {
    if mid <= hi {
      SyncRangeConcat(blocks, m, lo, mid, hi - 1);
    }
  }

  /** Sweeping heights a second time, as a tick does after the cursor has moved back,
      files their matching transactions a second time. */
  lemma SyncRangeRepeated(blocks: nat -> Option<Block>, m: Index, lo: nat, hi: int, a: string)
    requires a in m
    ensures SyncRange(blocks, SyncRange(blocks, m, lo, hi), lo, hi)[a]
         == m[a] + RangeHits(blocks, a, lo, hi) + RangeHits(blocks, a, lo, hi)
  {
    var once := SyncRange(blocks, m, lo, hi);
    SyncRangeAppends(blocks, m, lo, hi, a);
    SyncRangeAppends(blocks, once, lo, hi, a);
  }

  /** The parser: the height of the last sweep's head and the address index. */
  class Parser {
    const rpcURL: string
    var lastSyncedBlock: int
    var transactions: Index

    /** The cursor is a height or the sentinel -1 of a failed head query. */
    ghost predicate Valid()
      reads this
    {
      lastSyncedBlock >= -1
    }

    /** A new parser has an empty index and its cursor at the head reported at construction. */
    constructor (rpcURL: string, node: Rpc)
      ensures Valid()
      ensures this.rpcURL == rpcURL
      ensures transactions == map[]
      ensures lastSyncedBlock == GetCurrentBlock(node)
    {
      this.rpcURL := rpcURL;
      transactions := map[];
      lastSyncedBlock := GetCurrentBlock(node);
    }

    /** Creates an empty slot for an address that has none; an existing slot is kept as is. */
    method Subscribe(address: string) returns (ok: bool)
      modifies this`transactions
      ensures ok
      ensures address in transactions
      ensures address in old(transactions) ==> transactions == old(transactions)
      ensures address !in old(transactions) ==> transactions == old(transactions)[address := []]
    {
      if address !in transactions {
        transactions := transactions[address := []];
      }
      ok := true;
    }

    /** The stored list of a subscribed address; nothing for any other address. */
    method GetTransactions(address: string) returns (txs: seq<Transaction>)
      ensures address in transactions ==> txs == transactions[address]
      ensures address !in transactions ==> txs == []
    {
      if address in transactions {
        txs := transactions[address];
      } else {
        txs := [];
      }
    }

    /** Fetches one block and files its transactions under the subscribed addresses; a
        failed fetch reports the height and changes nothing. */
    method FetchTransactions(node: Rpc, blockNumber: nat) returns (err: Option<FetchError>)
      modifies this`transactions
      ensures node.blockByNumber(DecToHex(blockNumber)).None? ==>
        err == Some(FetchError(blockNumber)) && transactions == old(transactions)
      ensures node.blockByNumber(DecToHex(blockNumber)).Some? ==>
        err == None && transactions == ApplyTxs(old(transactions), node.blockByNumber(DecToHex(blockNumber)).value.transactions)
      ensures transactions == ApplyHeight(BlocksByHeight(node), old(transactions), blockNumber)
    {
      var result := node.blockByNumber(DecToHex(blockNumber));
      if result.None? {
        return Some(FetchError(blockNumber));
      }
      var txs := result.value.transactions;
      var i := 0;
      while i < |txs|
        invariant 0 <= i <= |txs|
        invariant transactions == ApplyTxs(old(transactions), txs[..i])
      {
        var tx := txs[i];
        ghost var before := transactions;
        assert txs[..i + 1][..i] == txs[..i];
        assert ApplyTxs(old(transactions), txs[..i + 1]) == ApplyTx(before, tx);
        if tx.from in transactions {
          transactions := transactions[tx.from := transactions[tx.from] + [tx]];
        }
        if tx.to in transactions {
          transactions := transactions[tx.to := transactions[tx.to] + [tx]];
        }
        assert transactions == ApplyTx(before, tx);
        i := i + 1;
      }
      assert txs[..|txs|] == txs;
      return None;
    }

    /** One tick: a failed head query changes nothing; otherwise every height above the
        cursor up to the head is fetched in ascending order, failures are skipped, and the
        cursor is then set to the head, even when that moves it backwards. */
    method Sync(node: Rpc)
      requires Valid()
      modifies this
      ensures Valid()
      ensures GetCurrentBlock(node) == -1 ==>
        lastSyncedBlock == old(lastSyncedBlock) && transactions == old(transactions)
      ensures GetCurrentBlock(node) != -1 ==>
        && lastSyncedBlock == GetCurrentBlock(node)
        && transactions == SyncRange(BlocksByHeight(node), old(transactions), old(lastSyncedBlock) + 1, GetCurrentBlock(node))
    {
      var currentBlock := GetCurrentBlock(node);
      if currentBlock == -1 {
        return;
      }
      SweepHeights(node, lastSyncedBlock + 1, currentBlock);
      lastSyncedBlock := currentBlock;
    }

    /** The loop of a tick: heights first..last in ascending order, each fetched and
        applied; a failed fetch is only reported and the loop goes on. */
    method SweepHeights(node: Rpc, first: nat, last: int)
      modifies this`transactions
      ensures transactions == SyncRange(BlocksByHeight(node), old(transactions), first, last)
    {
      ghost var blocks := BlocksByHeight(node);
      var i := first;
      while i <= last
        invariant first <= i && (i <= last + 1 || i == first)
        invariant transactions == SyncRange(blocks, old(transactions), first, i - 1)
        decreases last - i
      {
        ghost var before := transactions;
        var err := FetchTransactions(node, i);
        assert SyncRange(blocks, old(transactions), first, i) == ApplyHeight(blocks, before, i);
        i := i + 1;
      }
    }
  }
}
