# Nibiru: verified models of the EVM index, its codec, the EIP-712 schema generator and protocol steps

This project models the parts of Nibiru (a Cosmos SDK chain with an EVM) whose correctness is not
visible from one function, and proves what they promise:

- **The wire codec of the index** (`Varints`, `Wire`, `TxResultCodec`). The writer fills a buffer
  backwards from a precomputed size. The reader takes varints, lets the last occurrence of a field win
  and steps over unknown fields and nested groups with a depth counter. A grammar of well-formed fields
  is given independently; the reader accepts exactly the sentences of that grammar, and round trip,
  merging and indifference to unknown fields follow from it.
- **The eth tx index** (`IndexKeys`, `IndexStore`, `EventsParser`, `AnteEvents`, `TxIndexer`,
  `BlockContents`, `CatchUp`, `IndexerService`). From the events of a block to the stored records, the lookups, the
  first and last indexed height, the catch-up command, and the two goroutines of the service as a
  transition system.
- **The EIP-712 schema generator** (`Names`, `Schema`, `SchemaProperties`, `SignDoc`, `TypeTable`).
  A JSON sign doc is flattened and compiled into one map of type definitions.
- **Protocol steps with invariants over whole runs**: the epoch clock (`Epochs`) and the nonce step of
  the EVM ante handler (`SenderSequence`).
- **Rounding** (`Rounding`): banker's rounding by in-place mutation, and the decimal square root.

Code that updates things in place is modelled by classes, arrays and loops; each such method is proved
equal to a specification function, and the promised properties are proved of that function. `Bytes`,
`Decimals` and `Sequences` hold Go's fixed-width integers, decimal numerals and the order of byte strings.
Integers are unbounded in Dafny, so every conversion and wrap-around is written out.

## How the source's world is represented

- Bytes are integers from 0 to 255; the key-value store is a map from byte strings to byte strings whose
  iterators start at the least or greatest key of their range. A batch write is atomic.
- A Go slice has a length below 2^63, which the reader assumes of its buffer.
- Hashes are 32 opaque bytes and addresses opaque text; hex text in events is taken as converted.
  Decoding a tx and unpacking tx data are inputs that may fail.
- A JSON object is a finite map and its keys are literal names: the path syntax of the JSON library is
  not modelled. The title caser upper-cases the first character.
- The node answers a request for the block or the results of height i with those of height i. A wait that
  times out is a step that can happen at any time. Store failures are a parameter of `IndexBlock`.
- The square root of a big integer is the integer square root, and division of the decimal type scales twice,
  divides and rounds with the function above; both belong to libraries.
- Go panics are an outcome of their own where the source can panic (a missing result, a message of another
  type, more pending events than messages). A panic of `IndexBlock` ends a run of the service.
- Executing a message is an outcome: its gas, its error text and the number of other events around its own.
  A tx that failed keeps the events of the ante handler alone.

## Where the code and its description differ

- A record whose fields are all zero has an empty encoding, and `GetByTxHash` takes an empty value for a
  missing one (`IndexStore.FoundByHash`). It can only happen at height 0.
- `ParseTxResult` numbers a committed tx with the running count of pending events
  (eth/rpc/events_parser.go:80), not with its slot. The record `ParseTxIndexerResult` builds on demand
  therefore carries the right message index exactly when the message was committed before the next one
  was pending (`AnteEvents.IndexerResultInTurn`). The chain emits all pending events of a tx before it
  executes a message, so in every executed batch of distinct messages, of any size, each record but that of
  the last message is misnumbered and gets the last one's index and cumulative gas
  (`AnteEvents.BatchMisnumbered`, `AnteEvents.ExecutedRecord`). The index itself is not affected (`TxIndexer.IndexAgreesWithEvents`).
- A pending event with index -1 is refused as if it had no index (`EventsParser.ParsePendingEvent`).
- Running the catch-up command again over the last part of the indexed heights changes nothing. Over any other
  part, and for any block indexed again at any later time, the store changes exactly when a hash recorded there
  is also recorded by a block indexed after it (`CatchUp.RerunRange`, `CatchUp.RerunBlock`).
- The service moves on past a block that `IndexBlock` fails on and does not come back to it
  (`IndexerService.FailedForGood`).
- Validation of an epoch only refuses a zero duration. With a negative one every block ends an epoch
  (`Epochs.NegativeDurationAlwaysTicks`); the clock catches up with a block exactly under the condition of
  `Epochs.CaughtUpAfterTick`. With a positive one it can be left behind only by a current epoch that is over
  before the start time, and only until the start time is reached (`Epochs.CaughtUpAfterRun`).

## Model

| member | source | states |
|---|---|---|
| Varints.SovIsLength | eth/indexer.pb.go:215-217 | the closed size formula on bit lengths equals the number of bytes the varint writer produces, for every number |
| Varints.VarintOfUint64 | eth/indexer.pb.go:174-184 | every 64-bit value is written as a well-formed varint of at most ten bytes that denotes it |
| Varints.EncodeVarint | eth/indexer.pb.go:174-184 | the loop writes exactly the varint in front of the offset and leaves every other byte of the buffer alone |
| Varints.ReadIffVarint | eth/indexer.pb.go:227-240 | the reading loop succeeds, ending at n, if and only if a well-formed varint lies there, and yields its value |
| Varints.ReadFails | eth/indexer.pb.go:227-234 | reading fails with an overflow exactly if ten bytes carry the continuation bit, and with an unexpected end exactly if fewer are left and all carry it |
| Varints.ReadVarint | eth/indexer.pb.go:227-240 | the or-ing loop into a 32- or 64-bit accumulator stays inside the buffer and returns the value reduced to that width, the next index and the error |
| Varints.OrAccumulates | eth/indexer.pb.go:236 | in an accumulator of any number of bits, or-ing in bits shifted above those gathered adds what is not shifted out, also where the shift passes the top |
| Wire.SkipIndexer | eth/indexer.pb.go:405-482 | skipping stops on every input, never reads outside the buffer, never drives the depth below zero, and a successful skip consumes at least one byte |
| Wire.SkipOverField | eth/indexer.pb.go:409-480 | at any depth a well-formed field, groups nested at will, is passed over as a whole |
| Wire.SkipIffField | eth/indexer.pb.go:405-482 | a skip ends at n if and only if a field of the grammar lies there: the depth counter does what recursion would |
| TxResultCodec.SizeIsLength | eth/indexer.pb.go:185-213 | the precomputed size is the length of the encoding |
| TxResultCodec.Message.MarshalToSizedBuffer | eth/indexer.pb.go:126-172 | the end of the buffer holds exactly the encoding, no gap and no overrun, and the front is untouched |
| TxResultCodec.EncodedBytes | eth/indexer.pb.go:126-172 | the encoding byte by byte: tags 0x08, 0x10, 0x18, 0x20, the two bytes 0x28 0x01 of the flag, 0x30 and 0x38, each with the varint of its named field, in this order, left out when zero |
| TxResultCodec.Message.Marshal | eth/indexer.pb.go:111-119 | the returned buffer is the encoding and has exactly Size bytes |
| TxResultCodec.Message.Unmarshal | eth/indexer.pb.go:221-404 | on every byte sequence the method stops and leaves the struct and the error the reading function gives, partial fields included |
| TxResultCodec.TagsSetFields | eth/indexer.pb.go:253-383 | at any place of any buffer a varint behind each of the seven tags sets exactly its named field, reduced to the field's width |
| TxResultCodec.DecodeIffFields | eth/indexer.pb.go:221-404 | bytes are accepted with a result if and only if they are a sequence of admissible fields whose in-order application gives that result |
| TxResultCodec.DecodeSuffix | eth/indexer.pb.go:224-398 | acceptance and result of the rest of a buffer do not depend on what stands in front of it |
| TxResultCodec.UnknownFieldIgnored | eth/indexer.pb.go:384-397 | inserting any well-formed field with a number above 7 between fields changes neither acceptance nor result |
| TxResultCodec.DecodeEncodeMerges | eth/indexer.pb.go:111-404 | reading an encoding into any struct merges it in field by field, non-zero fields winning |
| TxResultCodec.RoundTrip | eth/indexer.pb.go:111-404 | reading what was written gives back the record, for every record, negative height and index included |
| TxResultCodec.LastOneWins | eth/indexer.pb.go:221-404 | two encodings one after the other read as the merge of the two |
| IndexKeys.BigEndianOrder | eth/indexer/evm_tx_indexer.go:179-183 | byte order of big-endian prefixes is numeric order, what follows deciding between equal ones |
| IndexKeys.TxIndexKeyOrder | eth/indexer/evm_tx_indexer.go:179-183 | for all heights and indices the key order is the order of the pairs as unsigned numbers |
| IndexKeys.TxIndexKeyOrderOfPairs | eth/indexer/evm_tx_indexer.go:179-183 | on non-negative heights and indices the key order is the order of the pairs |
| IndexKeys.TxIndexKeyInjective | eth/indexer/evm_tx_indexer.go:179-183 | different pairs have different keys |
| IndexKeys.IndexRangeSeparates | eth/indexer/evm_tx_indexer.go:186-209 | the iterated range holds every index key and no hash key |
| IndexKeys.ParseTxIndexKey | eth/indexer/evm_tx_indexer.go:246-252 | the height parsed from a key is the one it was built from |
| IndexKeys.KeyBytes | eth/indexer/evm_tx_indexer.go:174-183 | a hash key is byte 1 and the hash; an index key is byte 2 and height and index as unsigned big-endian numbers of eight bytes |
| IndexStore.FoundByHash | eth/indexer/evm_tx_indexer.go:146-159 | a stored record is found under its hash, except the all-zero record, whose encoding is empty |
| IndexStore.LookupAfterWriting | eth/indexer/evm_tx_indexer.go:146-171 | index k of a written block leads to the last record saved under the k-th hash; that is the k-th record exactly when no later one has its hash |
| IndexStore.OtherLookupsKept | eth/indexer/evm_tx_indexer.go:162-171 | lookups at other heights, of hashes the block does not save, are unchanged |
| IndexStore.FirstInRange | eth/indexer/evm_tx_indexer.go:187-209 | the iterator's first key is the least, or greatest, key of the store in the range, or there is none |
| IndexStore.LoadEndBlock | eth/indexer/evm_tx_indexer.go:186-209 | the greatest or least height with an entry, -1 exactly when there is none; an error only on a key of wrong length |
| IndexStore.WritingKeepsKeys | eth/indexer/evm_tx_indexer.go:235-244 | every written block keeps the store made of hash keys and non-negative index keys |
| IndexStore.EntriesAfterWriting | eth/indexer/evm_tx_indexer.go:235-244 | a written block adds an entry for its height exactly if it has records, and for no other height |
| IndexStore.EndHeightOfHistory | eth/indexer/evm_tx_indexer.go:136-143 | after any history of blocks, in any order and over any store, the first and last block are the least and greatest heights that had records or entries before |
| IndexStore.LookupInHistory | eth/indexer/evm_tx_indexer.go:162-171 | after any history of blocks of distinct heights, over any store, every index of every height leads to the last record under its hash in the whole history, not found only if that record is all zeros |
| IndexStore.LookupHashAfter | eth/indexer/evm_tx_indexer.go:146-159 | after any history over the empty store a hash is not found exactly if no record was saved under it or the last one is all zeros; otherwise that one is found, and no lookup fails |
| IndexStore.LookupIndexAfter | eth/indexer/evm_tx_indexer.go:162-171 | after any history over the empty store a height and index are not found exactly if no block of that height has so many records or the record reached is all zeros; otherwise the last record under the hash recorded there last is found, and no lookup fails |
| IndexStore.RewriteSuffix | eth/indexer/evm_tx_indexer.go:129-131 | writing the last part of a batch once more changes nothing, whatever keys repeat |
| EventsParser.ParsePendingEvent | x/evm/events.go:78-103 | an event is understood exactly if every index attribute is a number of 32 bits, there is one, and the last is not -1, which counts as missing; the last index and the last hash are returned, the zero hash if there is none |
| EventsParser.ParseTxResult | eth/rpc/events_parser.go:40-111 | the loops compute the fold over the events and the overwriting for a failed tx, errors and panics included |
| EventsParser.SlotsHoldPendingHashes | eth/rpc/events_parser.go:48-111 | in every accepted result slot i has the hash of the i-th pending event, and the hash map holds exactly the pending hashes, each at its last slot |
| EventsParser.FoundIffPending | eth/rpc/events_parser.go:137-142 | a hash finds a slot exactly if it is pending, and the slot found has that hash |
| EventsParser.SlotsMeanEvents | eth/rpc/events_parser.go:50-94 | in every accepted list of events, whatever hashes repeat, slot i is the last committed event that came while slot i was the last one pending with its hash, or else its pending event |
| EventsParser.AccumulativeGasUsed | eth/rpc/events_parser.go:165-173 | the sum of the gas of the first slots modulo 2^64, zero outside the range |
| EventsParser.AccumulatedGrows | eth/rpc/events_parser.go:165-173 | from one slot to the next the accumulated gas grows by that slot's gas modulo 2^64; outside the slots it is zero |
| AnteEvents.AnteHandle | app/evmante/evmante_emit_event.go:33-56 | succeeds exactly if all messages are eth messages, and then emits one event per message numbered on from the block's count |
| AnteEvents.EmittedParsed | app/evmante/evmante_emit_event.go:48-54 | the emitted events are accepted exactly if all their indices fit an int32, and give one numbered slot per message |
| AnteEvents.LookupIfIndexKept | eth/rpc/events_parser.go:153-162 | on emitted events followed by any others that add no pending event and keep the first index, tx index base+i finds slot i, with message i's hash, and every other index finds nothing |
| AnteEvents.ExecuteMsgs | x/evm/keeper/msg_server.go:32-132 | executing the messages in turn emits for message j a committed event with its hash and index base+j, and raises the block's tx index by the number of messages |
| AnteEvents.ChainResultParsed | eth/rpc/events_parser.go:40-111 | of every tx the chain runs, with any messages, outcomes and code, the result is accepted exactly if all indices fit an int32, and every slot is then given: hash, tx index base+i, gas and outcome, repeated hashes and failed txs included |
| AnteEvents.LookupByTxIndex | eth/rpc/events_parser.go:153-162 | in every result the chain produces, tx index base+i finds the slot of message i, and every other index finds nothing |
| AnteEvents.IndexerResultInTurn | eth/rpc/events_parser.go:114-134 | of every accepted result, failed or not and with any repeated hashes, the record built on demand for slot i has message index i exactly if the message was committed before the next was pending; its cumulative gas is that of the slots up to the index it carries |
| AnteEvents.BatchMisnumbered | eth/rpc/events_parser.go:79-90 | in a batch of any size whose messages are all pending first, the record of message i is numbered right exactly if it is the last or its slot was not overwritten; every other carries index and cumulative gas of the last message, and that gas is right exactly if the later messages used a multiple of 2^64 |
| AnteEvents.ChainEventsPendingFirst | app/evmante/evmante_emit_event.go:26-57 | in every tx the chain runs all pending events come before the first committed one |
| AnteEvents.ExecutedRecord | eth/rpc/events_parser.go:114-134 | the record of every executed message, unless a later one has its hash: its own gas, outcome and tx index, but message index and cumulative gas of the last message of the tx |
| TxIndexer.SaveTxResult | eth/indexer/evm_tx_indexer.go:235-244 | queues the marshalled record under its hash and the hash under height and index, or fails at the refused Set |
| TxIndexer.IndexMsgs | eth/indexer/evm_tx_indexer.go:86-127 | the message loop produces exactly the specified records, panics exactly where they are undefined, and fails only on a struck Set |
| TxIndexer.IndexTx | eth/indexer/evm_tx_indexer.go:58-84 | a tx is skipped or adds its records, under the same conditions as the specification |
| TxIndexer.EVMTxIndexer.IndexBlock | eth/indexer/evm_tx_indexer.go:50-133 | all records are written at once, or, on any error or panic, the store is unchanged; success exactly when nothing panics or fails |
| BlockContents.RecordsOfBlock | eth/indexer/evm_tx_indexer.go:58-127 | a message has a record exactly if its tx has code 0 or one of the two log texts, decodes with the one eth option and parses, and the tx failed or the message has a parsed entry; there are no other records, they stand in the order of txs and messages, and their fields are given, the cumulative gas growing by each message's gas |
| BlockContents.EligibleIsIndexed | eth/rpc/rpc.go:229-238 | the two guards of the loop admit exactly the txs with code 0 or one of the two log texts and with the one eth option |
| BlockContents.PanicsIff | eth/indexer/evm_tx_indexer.go:58-93 | indexing a block panics exactly if a tx has no result, or is admitted and its parsing panics, or it parses and has a message of another type |
| TxIndexer.RecordsNumbered | eth/indexer/evm_tx_indexer.go:56-127 | the records of a block carry its height and the indices 0, 1, 2, ... without gaps, across all its txs |
| TxIndexer.IndexAgreesWithEvents | eth/indexer/evm_tx_indexer.go:80-127 | for every indexed eth tx the number of records is determined, and for each message with a parsed entry gas, outcome and cumulative gas equal those of the event path, for successful and failed txs |
| TxIndexer.IndexedBlockLookups | eth/indexer/evm_tx_indexer.go:50-171 | after indexing a block every index below the record count leads to the last record with its hash, the k-th one when the hashes are distinct; only a record that is all zeros is not found |
| TxIndexer.EVMTxIndexer.LookUpHash | eth/indexer/evm_tx_indexer.go:146-159 | the method with its in-place Unmarshal agrees with the lookup function, whose answers after every history `LookupHashAfter` gives |
| TxIndexer.EVMTxIndexer.LookUpIndex | eth/indexer/evm_tx_indexer.go:162-171 | the method agrees with the lookup function |
| CatchUp.RangeIsIntersection | app/server/evm_tx_indexer_cli.go:64-101 | for all arguments, `last-indexed` and `latest` and negative numbers included, exactly the asked-for heights the node has are indexed, and the command refuses exactly if there are none or an argument is no number |
| CatchUp.IndexRange | app/server/evm_tx_indexer_cli.go:111-128 | the loop writes every height of the range, or exactly those below the height it stops at, which is the first one that is missing, has no results, panics or fails |
| CatchUp.Run | app/server/evm_tx_indexer_cli.go:61-134 | the range is the one asked for by the arguments, cut to what the node has, the command refusing exactly if that is empty; the store afterwards is the old one with that range written, or with the part below the first height that cannot be indexed |
| CatchUp.RerunSuffix | app/server/evm_tx_indexer_cli.go:111-128 | indexing any last part of the indexed heights again leaves the store unchanged, even with repeated hashes |
| CatchUp.RerunRange | app/server/evm_tx_indexer_cli.go:111-128 | once a range is indexed, indexing any part of it again leaves the store unchanged exactly if no hash is recorded both in that part and above it |
| CatchUp.RerunBlock | eth/indexer/evm_tx_indexer.go:50-133 | in any history of blocks of distinct heights, over any store, indexing one of them again changes nothing exactly if no block indexed after it has a record under one of its hashes |
| IndexerService.StepInv | app/server/evm_tx_indexer_service.go:65-134 | every step of the listener or the indexer keeps the invariant |
| IndexerService.NoLostWakeUp | app/server/evm_tx_indexer_service.go:65-109 | in every interleaving, if the indexer waits and the height has moved on, a signal is pending or the listener is about to send it |
| IndexerService.HeightFollowsHeaders | app/server/evm_tx_indexer_service.go:76-87 | over every run, whenever the listener listens the height is the maximum of the latest height at the start and all headers received; in between, of these and the header in hand |
| IndexerService.StartOfRun | app/server/evm_tx_indexer_service.go:91-97 | the run starts after the stored height, or for an empty store after the height at the step that loads it, between the latest height at the start and the current one |
| IndexerService.NoHeightSkipped | app/server/evm_tx_indexer_service.go:91-134 | in every run with any failures the heights given to IndexBlock increase strictly, and each height from that starting point to the last indexed one was written, or IndexBlock failed on it, or it lay below a reported earliest height |
| IndexerService.StoredHeights | app/server/evm_tx_indexer_service.go:91-134 | after every run a height has an entry exactly if it had one before or a pass over it wrote a record; a height up to the last indexed one that was not written was failed on or lay below a reported earliest height, and none is both written and failed |
| IndexerService.WrittenHeightsFound | app/server/evm_tx_indexer_service.go:115-133 | after every run each record of a pass that did not fail is found by height and index, leading to the last record of the run with its hash |
| IndexerService.FailedForGood | app/server/evm_tx_indexer_service.go:129-132 | a height IndexBlock failed on is never tried again in the run, however long it goes on |
| IndexerService.QuietRoundCatchesUp | app/server/evm_tx_indexer_service.go:100-134 | one round without failures indexes exactly the missing heights the node has, in order, and leaves in the store what the catch-up command would |
| IndexerService.AlwaysCatchesUp | app/server/evm_tx_indexer_service.go:100-134 | from every state the indexer can be in there is a way on, without new headers, that indexes all missing heights the node has up to the stored height |
| Names.DescendingUnique | eth/eip712/types.go:225-245 | a set of keys has one strictly descending list |
| Names.BeforeIff | eth/eip712/types.go:240-242 | one text comes before another exactly if it is a proper beginning of it or has the smaller character where they first differ |
| Names.SanitizeGrows | eth/eip712/types.go:335-357 | the name of a path is `Type` and the capitalized words of its fields, joined; a field that is a lone underscore counts as the root again |
| Names.SanitizeIsCapitalized | eth/eip712/types.go:335-357 | for every text, splitting, titling and joining equals one pass over the characters: dots and underscores go, a lower-case letter behind one becomes its capital, and an underscore alone between dots is `Type` |
| Names.SanitizeIsClean | eth/eip712/types.go:339-357 | a sanitized name has no dot and no underscore |
| Names.NestedNameFixed | eth/eip712/types.go:204-209 | the key of a nested object survives the second sanitizing |
| Names.TypeDefIsTypeName | eth/eip712/types.go:250-255 | the definition of a message is named after its type, that of an object inside it by `Type` and the capitalized words of its path |
| Schema.SortedJSONKeys | eth/eip712/types.go:225-245 | whatever order the map is enumerated in, the one strictly descending list of its keys comes out; an error exactly for a non-object |
| SchemaProperties.GeneratedName | eth/eip712/types.go:144-221 | the key a generated definition gets is the name of its place followed by a decimal number below 1000 |
| SchemaProperties.AddedKey | eth/eip712/types.go:279-309 | the returned key holds the definition, and its index is the least one not taken by another definition |
| SchemaProperties.AddFailsIffAllTaken | eth/eip712/types.go:299-303 | adding fails exactly when all thousand indices are taken by other definitions |
| SchemaProperties.GenerateKeeps | eth/eip712/types.go:144-221 | no existing definition is overwritten or removed, whether generation succeeds or fails |
| SchemaProperties.GenerateFails | eth/eip712/types.go:144-221 | generating the types of an object fails only when all thousand keys of some name are taken |
| SchemaProperties.GenerateStable | eth/eip712/types.go:144-221 | generating an object's types again in any extension of the resulting map returns the same key and changes nothing, through all nested objects and duplicate indices |
| SchemaProperties.GenerateConforms | eth/eip712/types.go:144-221 | the definition lists, in descending order, exactly the typable fields of the object, each with a type its value (or a list's first element) has; every definition on the way down has the name of its path |
| SchemaProperties.GenerateCloses | eth/eip712/types.go:144-221 | every type used by a definition is primitive or itself defined |
| SignDoc.FlattenPayloadMessages | eth/eip712/message.go:70-107 | succeeds exactly if `msgs` is an array of objects and no key `msg{i}` below its length exists |
| SignDoc.MsgFieldDigits | eth/eip712/message.go:135-137 | the key of message i is `msg` and the decimal digits of i, without leading zeros |
| SignDoc.FlattenedFields | eth/eip712/message.go:70-148 | every other field is kept, the messages stand at their own keys, `msgs` is gone, and nothing else is added |
| SignDoc.FlattenRoundTrip | eth/eip712/message.go:70-148 | the flattened payload and the number of messages give back the original payload |
| TypeTable.RootTypeOfName | eth/eip712/types.go:116-129 | the root type is `Type` and what follows the last slash of the message's type |
| TypeTable.LastToken | eth/eip712/types.go:124-126 | the last token of a text split at slashes is what a scan from its end to the last slash gives |
| TypeTable.Table.TypesAreEqual | eth/eip712/types.go:321-333 | the comparison loop decides equality |
| TypeTable.Table.AddTypesToRoot | eth/eip712/types.go:279-309 | the in-place loop leaves the map and returns the key the specification gives |
| TypeTable.Table.RecursivelyAdd | eth/eip712/types.go:144-221 | the recursive in-place walk leaves the map and returns the key the specification gives, on success and failure |
| TypeTable.Table.AddMsgTypes | eth/eip712/types.go:92-138 | a message's types are added and Tx is extended, or an error is returned under the specified conditions |
| TypeTable.Table.Create | eth/eip712/types.go:36-88 | the loop over the messages succeeds exactly when every message does |
| TypeTable.CreatedTypes | eth/eip712/types.go:36-138 | the final map is closed, keeps the base types, its Tx is the five base fields followed by msg0..msg{n-1} in order, each with a type named `Type`, what follows the last slash of the message's type, and a number, that describes the message, nested objects by types named after their paths, and that generating again would find unchanged |
| TypeTable.CreateFailsIff | eth/eip712/types.go:36-138 | creation fails exactly if some message is missing, no object or without a text as its type, or generating its types fills a name |
| TypeTable.EqualMessagesShareType | eth/eip712/types.go:272-292 | equal messages get one and the same type |
| Epochs.Keeper.BeginBlocker | x/epochs/abci.go:14-48 | every epoch ticks exactly once, whatever the order, and the calls made for an identifier are its own |
| Epochs.Keeper.TickOnce | x/epochs/abci.go:16-47 | the callback updates only its epoch and makes exactly the calls of its tick |
| Epochs.ProcessBlocks | x/epochs/abci.go:14-48 | over any sequence of blocks each epoch runs independently of the others |
| Epochs.RunAlternates | x/epochs/abci.go:28-44 | over any run the calls of a counting epoch are End(c), Start(c+1), ..., Start of the current one |
| Epochs.FreshRunAlternates | x/epochs/abci.go:28-44 | over any run the calls of a new epoch are Start(1), End(1), Start(2), ..., Start of the current one |
| Epochs.AtMostOnePerBlock | x/epochs/abci.go:28-35 | from any state at most one epoch advances in a block; the counting starts at one, in one block of the run, and never stops |
| Epochs.BeganInBlock | x/epochs/abci.go:25-26 | the recorded start time and height are those of the block in which the current epoch began |
| Epochs.RunNotEarly | x/epochs/abci.go:54-63 | over any run the n-th epoch starts at least n-1 durations after the start time |
| Epochs.CaughtUpAfterTick | x/epochs/abci.go:17-26 | after a block no due epoch change is left over exactly if none was due before, or the start time is reached and the duration is positive |
| Epochs.CaughtUpAfterRun | x/epochs/abci.go:14-63 | with a positive duration, from any state and over blocks at any times, no due epoch change is left over after a run exactly if some block reached the start time or none was due at that time before the run |
| Epochs.SoundAfterRun | x/epochs/abci.go:14-63 | an epoch not yet begun, or whose current epoch does not end before the start time, stays so over every run and is never left behind; with block times in order its current epoch began no later than the last block |
| Epochs.NegativeDurationAlwaysTicks | x/epochs/types/epochinfo.go:8-22 | with a negative duration, which validation accepts, every block ends an epoch |
| SenderSequence.AccountKeeper.AnteHandle | app/evmante/evmante_increment_sender_seq.go:31-78 | the loop accepts exactly the txs the specification accepts and then leaves its sequences |
| SenderSequence.AccountKeeper.RunTx | app/evmante/evmante_increment_sender_seq.go:31-78 | a tx refused here or later leaves every sequence unchanged |
| SenderSequence.RunTxs | app/evmante/evmante_increment_sender_seq.go:31-78 | running tx after tx leaves the sequences and the log of accepted messages that the run function gives |
| SenderSequence.AcceptedIffInTurn | app/evmante/evmante_increment_sender_seq.go:37-75 | a tx is accepted exactly if each sender's nonces are consecutive from its sequence in message order, and then each sequence rises by the sender's message count |
| SenderSequence.RunConsecutive | app/evmante/evmante_increment_sender_seq.go:37-75 | over any run of accepted and refused txs each account's accepted nonces count up from its first sequence |
| SenderSequence.NoReplay | app/evmante/evmante_increment_sender_seq.go:59-74 | over any run no (sender, nonce) pair is accepted twice exactly if no sender has more than 2^64 accepted messages |
| SenderSequence.NoReplayIfFew | app/evmante/evmante_increment_sender_seq.go:59-74 | whatever the sequences, no pair is accepted twice if no sender has more than 2^64 messages in the txs |
| Rounding.BankersRound | x/common/dec.go:158-178 | the result is the quotient object itself, rounded in place |
| Rounding.ChopPrecisionAndRound | x/common/dec.go:129-144 | despite aliasing and in-place negation the argument itself becomes, and is returned as, the nearest whole number, ties to even |
| Rounding.RoundedIsRounded | x/common/dec.go:129-178 | rounding gives the nearest whole number of d/10^18, the even one of two equally near, for negative d too |
| Rounding.RoundedUnique | x/common/dec.go:146-157 | at most one whole number is nearest with ties to even, so the specification fixes the result |
| Rounding.RoundedOdd | x/common/dec.go:130-137 | rounding commutes with negation |
| Rounding.RoundedMonotone | x/common/dec.go:129-178 | rounding is monotone |
| Rounding.RoundedExact | x/common/dec.go:158-162 | rounding is exact on multiples of 10^18 |
| Rounding.MustSqrtDec | x/common/dec.go:42-46 | the root r of x >= 0 satisfies r^2 <= x < (r + 10^-9)^2, and a negative argument panics |

## Left out

- The codecs of `Log`, `Params` and the other messages in x/evm/evm.pb.go and elsewhere: the same reader and writer shape with length-delimited fields.
- `BinSearch`, the fee and gas checks of app/evmante/evmante_validate_basic.go, the wei conversions of x/evm/const.go and `AddrLocker`: they would only add easy members.
- Hashing, signatures, addresses, tx decoding and the EVM itself, including the nonces it sets while executing.
- The parsing of JSON text and of JSON paths, and Unicode title casing beyond the first character.
- The domain separator, the legacy EIP-712 encoding and the signing that uses the types.
- Logging, telemetry, closing of the store and cancellation of the service.
- The 64-bit width of epoch numbers: they are unbounded here.
- `Table` after a failed generation: the partly extended map is what `GenerateKeeps` says of it; the source discards it.
- The overflow check of the decimal type in `MustSqrtDec`.
