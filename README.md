# eth-parser in Dafny

A model of the core of eth-parser. It is a small Ethereum transaction watcher written in Go.
A parser remembers the height of the last block it swept (`lastSyncedBlock`) and keeps an index from subscribed addresses to their transactions.
On every tick it asks the JSON-RPC node for the chain head. It fetches every block above the cursor up to that head, in ascending order. Each fetched transaction is appended to the list of its sender and to the list of its recipient, but only when those addresses are subscribed.

Heights travel to and from the node as `"0x"`-prefixed hexadecimal text. The model follows Go's `fmt.Sprintf("0x%x")` and `fmt.Sscanf(.., "0x%x", ..)` into a 64-bit `int`, and the scan error is ignored.

Modules:

- `EthTypes` (`types.dfy`): the transaction and block records, plus the address-format check.
- `SeqFacts` (`seqs.dfy`): generic sequence facts, and `ConcatRange`, the concatenation of `f(lo) .. f(hi)`.
- `HexCodec` (`utils.dfy`): `DecToHex` and `HexToDec` with their round trip.
- `AddressIndex` (`index.dfy`): how one block's transactions are filed under the subscribed addresses. It is written as pure functions over a map, and `Matching` is a reference definition that does not use the map.
- `EthParser` (`parser.dfy`):
  - `Parser` is a class with the fields of the Go struct. Its methods update them in place and are proved against the functions of `AddressIndex`.
  - `SyncRange` is the sweep over a range of heights.
  - The node is a value of type `Rpc`. It holds the decoded `result` of `eth_blockNumber`, and the decoded `result` of `eth_getBlockByNumber` for each requested hex height. A `None` stands for a request that failed.

## Model

| member | source | states |
|---|---|---|
| EthTypes.Transaction | eth_parser/types.go:20-26 | A transaction record with the five text fields the node reports: from, to, value, blockNumber and hash. |
| EthTypes.Block | eth_parser/types.go:15-18 | A block record: its number text and its transactions, in the node's order. |
| EthTypes.Utf8Len | eth_parser/types.go:6 | Go's len of a string counts UTF-8 bytes: between 1 and 4 per character. |
| EthTypes.Utf8LenAscii | eth_parser/types.go:6 | A text's byte length equals its character count exactly when every character is ASCII. |
| EthTypes.ValidateEthAddr | eth_parser/types.go:5-7 | An accepted address has between 11 and 42 characters and starts with '0' followed by lower-case 'x'. |
| EthTypes.ValidateEthAddrShape | eth_parser/types.go:5-7 | An address is accepted exactly when it is 42 bytes long and its first two characters are '0' and lower-case 'x'. |
| EthTypes.ValidateEthAddrRejectsLength | eth_parser/types.go:5-7 | A "0x"-prefixed text of any byte length other than 42 is refused. |
| EthTypes.ValidateEthAddrRejectsUpperPrefix | eth_parser/types.go:5-7 | The prefix "0X" is refused, whatever follows it. |
| EthTypes.ValidateEthAddrBody | eth_parser/types.go:5-7 | "0x" followed by a body is accepted exactly when the body is 40 bytes long; its characters are not inspected. |
| EthTypes.ValidateEthAddrAsciiBody | eth_parser/types.go:5-7 | For an ASCII body, "0x" followed by it is accepted exactly when it has 40 characters. |
| EthTypes.ValidateEthAddrWideBody | eth_parser/types.go:5-7 | A 40-character body containing a non-ASCII character is more than 40 bytes, so "0x" followed by it is refused. |
| EthTypes.ValidateEthAddrRejectsShort | eth_parser/types.go:5-7 | The empty text and the bare "0x" are refused. |
| HexCodec.HexDigits | eth_parser/utils.go:11-13 | The digits of n are canonical "%x" digits: lower case, non-empty, no leading zero, and equal to "0" exactly when n is 0. |
| HexCodec.DecToHex | eth_parser/utils.go:11-13 | The text is "0x" followed by canonical digits, and is "0x0" exactly for 0. |
| HexCodec.HexDigitsValue | eth_parser/utils.go:11-13 | The printed digits denote, in base 16, the number they were printed from. |
| HexCodec.HexRun | eth_parser/utils.go:7 | The digits the "%x" verb consumes: a prefix of the input, all of them hex digits, and followed by a non-digit or by the end of the input. |
| HexCodec.HexToDec | eth_parser/utils.go:5-9 | The result always fits in a non-negative 64-bit int. |
| HexCodec.HexToDecDigits | eth_parser/utils.go:5-9 | "0x" followed by digits that fit in 64 bits reads as their base-16 value, whatever non-digit text follows them. |
| HexCodec.HexToDecOverflow | eth_parser/utils.go:5-9 | Digits whose value exceeds the largest 64-bit int read as 0, because the scan fails and the zero value is kept. |
| HexCodec.HexToDecNoDigits | eth_parser/utils.go:5-9 | A text without the lower-case "0x" prefix, or with no digit right after it, reads as 0. |
| HexCodec.HexToDecReadsRun | eth_parser/utils.go:5-9 | Two texts after "0x" whose leading digit runs agree read as the same value, whatever follows the runs. |
| HexCodec.RoundTrip | eth_parser/utils.go:5-13 | HexToDec(DecToHex(n)) == n for every n from 0 to the largest 64-bit int. |
| HexCodec.DecToHexInjective | eth_parser/utils.go:11-13 | Distinct heights are requested under distinct hex texts. |
| AddressIndex.ApplyTx | eth_parser/parser.go:92-100 | One loop pass neither creates nor removes an index key. |
| AddressIndex.ApplyTxAppends | eth_parser/parser.go:94-99 | One pass appends to a subscribed list exactly the sender-side copy and then the recipient-side copy of the transaction. |
| AddressIndex.ApplyTxs | eth_parser/parser.go:92-100 | The loop over a block neither creates nor removes an index key. |
| AddressIndex.MatchingSnoc | eth_parser/parser.go:92-100 | The reference filing of a block with one more transaction adds that transaction's copies at the end. |
| AddressIndex.ApplyTxsAppends | eth_parser/parser.go:92-100 | Every subscribed list keeps its old entries as a prefix and gains exactly the block's matching transactions, in block order. |
| AddressIndex.ApplyTxsNoNewKeys | eth_parser/parser.go:92-100 | An unsubscribed address gets no slot from a fetch. |
| AddressIndex.MatchingCount | eth_parser/parser.go:92-100 | A transaction occurring c times in a block is filed c times per matching side: c for the sender, c more for the recipient. |
| AddressIndex.MatchingMembers | eth_parser/parser.go:92-100 | A transaction is filed under a exactly when it is in the block and a is its sender or its recipient. |
| AddressIndex.SelfTransferTwice | eth_parser/parser.go:94-99 | A self-transfer is filed twice under its subscribed address. |
| AddressIndex.ApplyTxsConcat | eth_parser/parser.go:92-100 | Filing two batches one after the other equals filing their concatenation. |
| EthParser.GetCurrentBlock | eth_parser/parser.go:59-66 | The head is -1 exactly when the request fails, and otherwise a non-negative int. |
| EthParser.EmptyResultReadsAsZero | eth_parser/parser.go:59-66 | A reply whose result decodes as empty text reads as head 0, not as a failed request (-1). |
| EthParser.GetCurrentBlockReadsHead | eth_parser/parser.go:59-66 | A head reported in the "0x%x" form is read back as the same height. |
| EthParser.ApplyHeight | eth_parser/parser.go:83-102 | Processing one height neither creates nor removes an index key. |
| EthParser.ApplyHeightAppends | eth_parser/parser.go:83-102 | One height appends that height's matching transactions to every subscribed list, and nothing when the fetch fails. |
| EthParser.SyncRange | eth_parser/parser.go:110-115 | A sweep neither creates nor removes an index key. |
| EthParser.RangeHitsSnoc | eth_parser/parser.go:110-115 | The contributions of a height range split off the top height. |
| EthParser.SyncRangeAppends | eth_parser/parser.go:110-115 | A sweep appends to every subscribed list the matching transactions of each fetched height, in ascending height order. |
| EthParser.FailedHeightIsSkipped | eth_parser/parser.go:110-115 | Within one sweep, a height whose fetch fails contributes nothing: the sweep contributes the heights below it followed by those above it. |
| EthParser.SyncRangeRepeated | eth_parser/parser.go:104-117 | Sweeping the same heights a second time, as a tick does after the cursor has moved back, files their matching transactions a second time. |
| EthParser.SyncRangeConcat | eth_parser/parser.go:104-117 | Two consecutive sweeps against the same node equal one sweep over the joined range. |
| EthParser.Parser.constructor | eth_parser/parser.go:20-25 | A new parser has an empty index, and its cursor is the head reported at construction (-1 when that request fails). |
| EthParser.Parser.Subscribe | eth_parser/parser.go:68-75 | Always returns true and leaves the address subscribed. An existing list is kept; a new address gets an empty list; nothing else changes. |
| EthParser.Parser.GetTransactions | eth_parser/parser.go:77-81 | Returns the stored list of a subscribed address, and an empty list for any other address. |
| EthParser.Parser.FetchTransactions | eth_parser/parser.go:83-102 | A failed fetch returns an error naming the height and changes nothing. Otherwise it returns no error and the index becomes ApplyTxs of the old index and the block's transactions. |
| EthParser.Parser.SweepHeights | eth_parser/parser.go:110-115 | The loop leaves the index equal to SyncRange over heights first..last of the old index. |
| EthParser.Parser.Sync | eth_parser/parser.go:104-117 | A failed head query changes nothing. Otherwise the index becomes the sweep from cursor+1 to the head, and the cursor becomes the head, even when that moves it backwards. |

## Left out

- The HTTP and JSON layer of `rpcRequest` (parser.go:36-57) is not modelled. Each operation receives an `Rpc` value holding the decoded results. A failed request or failed decoding is `None`. A JSON-RPC error reply that still decodes leaves an empty result, which the model represents as `Some("")` (read as 0) or as a block with no transactions. The node is taken to answer the same within one operation.
- The background goroutine with its 5-second ticker, and the `RWMutex`, are not modelled. Operations are treated as atomic and running one after another, so interleavings of `Subscribe` with a running sweep are not captured.
- Logging in `sync` and the text of the error message built by `fetchTransactions` are not modelled. The error value carries only the height.
- `server/server.go` and `main.go` are not part of this model, and neither is the lower-casing of addresses done there.
- `EthParser.Parser.GetTransactions`: Go's `nil` slice for an unknown address and its empty slice for a new subscription both become `[]`. Aliasing between the returned slice and the stored one is not modelled.
- `HexCodec.HexToDec` and `HexCodec.HexRun`: only the form the node sends is modelled, namely the literal "0x" followed by a digit run. `Sscanf` also accepts a sign, leading spaces and `_` digit separators; these are not modelled.
- `HexCodec.DecToHex`: takes a `nat`. Go's formatting of a negative `int` (a leading '-') is not modelled, because heights are never negative.
- `EthParser.Parser.Sync`: when the head is the largest 64-bit int, the Go loop's `i++` would wrap around. The model treats heights as unbounded.
- Nothing is left out about the cursor: the model follows the code, and the cursor is not monotonic. A head that reads lower than the cursor, such as the 0 an error reply gives (`EthParser.EmptyResultReadsAsZero`), moves it back, and the next tick files the heights above it again (`EthParser.SyncRangeRepeated`).
- `EthParser.FailedHeightIsSkipped`: a skipped height stays skipped only while the cursor does not move back below it.
- Strings are modelled as sequences of Unicode characters. A Go string holding bytes that are not valid UTF-8 is not modelled; `EthTypes.Utf8Len` counts the bytes of the UTF-8 encoding.
