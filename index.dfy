/** The address index as a value: how one fetched block's transactions are filed under
    the subscribed addresses (the loop at eth_parser/parser.go:92-100). The parser's
    imperative code is proved against these functions. */
module AddressIndex {
  import opened EthTypes
  import opened SeqFacts

  /** Subscribed address -> its transactions, in the order they were discovered. */
  type Index = map<string, seq<Transaction>>

  /** What one transaction adds to the list of a. */
  function Hits(a: string, tx: Transaction): (r: seq<Transaction>)
  {
    (if tx.from == a then [tx] else []) + (if tx.to == a then [tx] else [])
  }

  /** Reference definition, independent of the map: the entries txs contributes to a's
      list, in block order. */
  function Matching(a: string, txs: seq<Transaction>): seq<Transaction>
  {
    if txs == [] then [] else Hits(a, txs[0]) + Matching(a, txs[1..])
  }

  /** One pass of the loop body: append tx under its sender if that address has a slot,
      then under its recipient if that one has a slot. */
  function ApplyTx(m: Index, tx: Transaction): (m': Index)
    ensures m'.Keys == m.Keys
  {
    var m1 := if tx.from in m then m[tx.from := m[tx.from] + [tx]] else m;
    if tx.to in m1 then m1[tx.to := m1[tx.to] + [tx]] else m1
  }

  /** Seen from one subscribed address, the two conditional appends of a loop pass add
      exactly Hits: the sender-side copy first, then the recipient-side copy. */
  lemma ApplyTxAppends(m: Index, tx: Transaction, a: string)
    requires a in m
    ensures ApplyTx(m, tx)[a] == m[a] + Hits(a, tx)
  {
  }

  /** The whole loop over a block's transactions, in order. */
  function ApplyTxs(m: Index, txs: seq<Transaction>): (m': Index)
    ensures m'.Keys == m.Keys
  {
    if txs == [] then m else ApplyTx(ApplyTxs(m, txs[..|txs| - 1]), txs[|txs| - 1])
  }

  lemma {:induction false} MatchingSnoc(a: string, txs: seq<Transaction>, tx: Transaction)
    ensures Matching(a, txs + [tx]) == Matching(a, txs) + Hits(a, tx)
  {
    if txs == [] {
      assert [] + [tx] == [tx];
      assert [tx][1..] == [];
    } else {
      var rest := txs[1..];
      assert (txs + [tx])[0] == txs[0];
      assert (txs + [tx])[1..] == rest + [tx];
      MatchingSnoc(a, rest, tx);
      AppendAssoc(Hits(a, txs[0]), Matching(a, rest), Hits(a, tx));
    }
  }

  /** Applying a block keeps every slot's old entries as a prefix and adds, at the end,
      exactly the block's matching transactions in block order; no key is created or removed. */
  lemma {:induction false} ApplyTxsAppends(m: Index, txs: seq<Transaction>, a: string)
    requires a in m
    ensures a in ApplyTxs(m, txs)
    ensures ApplyTxs(m, txs)[a] == m[a] + Matching(a, txs)
  {
    if txs == [] {
      AppendEmpty(m[a]);
    } else {
      var init, last := txs[..|txs| - 1], txs[|txs| - 1];
      var mid := ApplyTxs(m, init);
      ApplyTxsAppends(m, init, a);
      ApplyTxAppends(mid, last, a);
      assert init + [last] == txs;
      MatchingSnoc(a, init, last);
      AppendAssoc(m[a], Matching(a, init), Hits(a, last));
    }
  }

  /** Applying a block leaves an unsubscribed address unsubscribed. */
  lemma ApplyTxsNoNewKeys(m: Index, txs: seq<Transaction>, a: string)
    requires a !in m
    ensures a !in ApplyTxs(m, txs)
  {
  }

  /** Multiplicity: a transaction that occurs c times in the block appears c times under
      its sender and c more times under its recipient, the two sides counted independently. */
  lemma {:induction false} MatchingCount(a: string, txs: seq<Transaction>, t: Transaction)
    ensures multiset(Matching(a, txs))[t]
         == (if t.from == a then multiset(txs)[t] else 0) + (if t.to == a then multiset(txs)[t] else 0)
  {
    if txs != [] {
      var x, rest := txs[0], txs[1..];
      MatchingCount(a, rest, t);
      assert txs == [x] + rest;
      assert multiset(txs)[t] == multiset([x])[t] + multiset(rest)[t];
      assert multiset(Matching(a, txs))[t] == multiset(Hits(a, x))[t] + multiset(Matching(a, rest))[t];
      assert multiset(Hits(a, x))[t]
          == (if t.from == a then multiset([x])[t] else 0) + (if t.to == a then multiset([x])[t] else 0);
    }
  }

  /** A transaction is filed under a iff it is in the block and a is its sender or its
      recipient. */
  lemma MatchingMembers(a: string, txs: seq<Transaction>, t: Transaction)
    ensures t in Matching(a, txs) <==> t in txs && (t.from == a || t.to == a)
  {
    MatchingCount(a, txs, t);
  }

  /** A self-transfer touching a subscribed address is filed under it twice. */
  lemma SelfTransferTwice(m: Index, tx: Transaction)
    requires tx.from == tx.to && tx.from in m
    ensures ApplyTxs(m, [tx])[tx.from] == m[tx.from] + [tx, tx]
  {
    ApplyTxsAppends(m, [tx], tx.from);
  }

  /** Applying two batches one after the other is applying their concatenation. */
  lemma {:induction false} ApplyTxsConcat(m: Index, xs: seq<Transaction>, ys: seq<Transaction>)
    ensures ApplyTxs(ApplyTxs(m, xs), ys) == ApplyTxs(m, xs + ys)
  {
    if ys != [] {
      ApplyTxsConcat(m, xs, ys[..|ys| - 1]);
      assert (xs + ys)[..|xs + ys| - 1] == xs + ys[..|ys| - 1];
    } else {
      assert xs + ys == xs;
    }
  }
}
