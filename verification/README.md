# Binary market data feed: verified model

This project models the whole path of a market data message and proves what the pipeline promises. A generator
invents orders and changes to them. The exchange simulator batches those messages into binary packets, stores each
packet in a history, and then either drops it or multicasts it. The network may lose, duplicate and reorder. The feed
handler applies packets strictly in sequence to a limit order book, asks a TCP recovery server for any gap, and
announces each change of the best bid and offer.

Run `dafny verify dfyconfig.toml`.

| file | what it models |
|---|---|
| `Prelude.dfy`, `BigEndian.dfy` | unsigned widths, results, network byte order |
| `Protocol.dfy` | packed structs, parsing, the library serializer |
| `Books.dfy`, `LimitOrderBook.dfy` | the book as a value, and the object that updates three maps in place |
| `BookProofs.dfy`, `BookKeys.dfy` | when the level sums agree with the live orders, and when the level keys do |
| `BookCommutes.dfy`, `BookTops.dfy` | when messages commute, and when the best bid and offer move |
| `Histories.dfy`, `Sockets.dfy`, `Recovery.dfy`, `Conversations.dfy` | packet history, partial sends and receives, the replay request and response, and repeated requests |
| `Generators.dfy`, `Publishing.dfy` | the generator's swap-and-pop pool, the simulator's serializer and publish loop |
| `Handling.dfy`, `FeedHandlers.dfy` | the gap-recovery state machine as a function, and the object with its loops |
| `HandlingProofs.dfy`, `HandlingExits.dfy` | what the handler keeps on any input, and exactly when it throws |
| `PublishedLog.dfy`, `Pipeline.dfy`, `Guarantees.dfy`, `Runs.dfy`, `Wraparound.dfy` | the published stream, the transition system of all parts together, the end-to-end theorems, runs that exist, and where the theorems end |

Exceptions are values: an operation that can throw returns an error, and a handler that has thrown is `Thrown` for
good. Random draws are arguments within their stated ranges. A replay request is a function the handler is given; in
`Pipeline` that function is the server's byte response to the range query, read back by the client's framing rules.
System calls move as many bytes as a schedule says, so every splitting of a stream is covered.

The imperative classes and methods are proved equal to functions on values, and the theorems are about those
functions. The `hide` statements only keep function bodies out of proofs that do not need them.

The main results, in order of weight:

1. `Guarantees.EndToEnd`, `LoopEndToEnd`, `Confluence`, `RecoveryAlwaysSucceeds`, `CountersBalance`, `NetworkExactly`,
   `FinishedRun`: over every run of storing, sending, dropping, losing, duplicating, reordering and handling,
   interleaved at will.
2. `Guarantees.BookReplicatesGenerator`, `MarketViewIsGenerators`, `AlertsFollowGenerator`: the handler's book, its
   best bid and offer, and its alerts are the generator's own.
3. `HandlingExits.ThrowsExactly`, `ThrowsWhy`, `HandlingProofs.RunsKeepLoopHead`, `DrainTakesTheRun`: the handler on arbitrary
   traffic and an arbitrary recovery service.
4. `BookProofs.RunSoundExactly`, `BookKeys.RunKeysExactly`, `BookCommutes.ApplyCommutesExactly`,
   `BookTops.BboChangedExactly`: the level maps as indexes.
5. `Recovery.ExchangeExactly`, `Conversations.ConversationExactly`, `ConverseOverTcp` and `Protocol.ParseSerialized`,
   `SerializeParsed`: bytes on the wire.

Four promises hold only up to a limit of the code. Each limit is stated exactly, with an input beyond it:

- Level sums wrap at 2^32. The indexes agree throughout a run if and only if no per-price sum ever exceeds 32 bits
  (`BookProofs.RunSoundExactly`; `OverflowBreaksAgreement`). All runs of the generator whose pools have at most n orders
  stay within that if and only if n is at most 17,179,869 (`Guarantees.SmallPoolsFitExactly`; `RunOfAdds`).
- An add of quantity 0 is accepted, and its order can stay live without a level. From the empty book, sums agree and
  level keys are the live prices throughout a run if and only if, besides, no message strands an order: takes all the
  quantity at its order's level, puts nothing back, and leaves another order there (`BookKeys.RunKeysExactly`;
  `EmptyOrderLosesItsLevel`). Positive adds never do, and the generator makes no others.
- Sequence numbers wrap at 2^32. Every run that publishes at most n packets keeps the handler running if and only if
  n is below 2^32 - 1 (`Wraparound.RunsSurviveExactly`; `HandlerCanThrow`). The end-to-end theorems therefore speak of
  runs that have published at most 2^32 - 2 packets.
- The recovery server sends packets of up to 65535 bytes while the client accepts 4096. A range comes back if and only
  if each of its packets has 1 to 4096 bytes and there are fewer than 2^32 of them (`Recovery.ExchangeExactly`;
  `SmallestOversizedPacket`).

## Model

| member | source | states |
|---|---|---|
| Guarantees.EndToEnd | src/feed_handler/main.cpp:268-454 | over every run the handler never throws and its book is the fold of the first `received` published messages, each once and in order; short of the limit these are packets `1..expected-1`, at the limit exactly `limit` messages even mid-packet |
| Guarantees.LoopEndToEnd | src/feed_handler/main.cpp:395-454 | the whole receive loop, given the deliveries of any run, does not throw, has applied the first `received` published messages, and short of the limit stands one past the largest number among the datagrams it was given |
| Guarantees.LoopFollowsRun | src/feed_handler/main.cpp:395-454 | the receive loop over the deliveries of any run, throwing ones included, ends as the handler of that run has |
| Guarantees.RecoveryAlwaysSucceeds | src/exchange_sim/main.cpp:285-335 | between publish turns the history is exactly packets `1..sequence-1`, every datagram sent is one of them, and every range of them is recovered in full and in order through the TCP bytes |
| Guarantees.NetworkExactly | src/exchange_sim/main.cpp:297-320 | a datagram is on the network if and only if it is a packet before `sequence` whose number `skip_every` does not divide |
| Guarantees.PacketsAreFull | src/exchange_sim/main.cpp:266-273 | packet k ends at the smaller of k times `messages_per_packet` and `messages` |
| Guarantees.FinishedRun | src/exchange_sim/main.cpp:266-340 | when the publish loop ends exactly `messages` have been published, in the ceiling of `messages / messages_per_packet` packets |
| Guarantees.ExpectedIsLargestPlusOne | src/feed_handler/main.cpp:407-448 | `expected_packet_seq` is one more than the largest sequence number received, unless the limit has left that very packet parked behind its gap |
| Guarantees.Confluence | src/feed_handler/main.cpp:395-454 | two unlimited runs with different losses, duplicates and orders but the same packets up to the same largest number end with the same book, alerts and position |
| Guarantees.CountersBalance | src/feed_handler/main.cpp:331-348 | processed = live + replay + drain = expected - 1; one replay request per out-of-order packet; out-of-order = drained + still parked; gaps = replayed + what the limit cut off the last replay |
| Guarantees.FailedRecoveryIsSafe | src/feed_handler/main.cpp:364-393 | with a recovery connection that may fail, the handler throws exactly when a needed request fails, and even then its book is the fold of the first `received` published messages |
| Guarantees.StoresMeanwhileDoNotMatter | src/common/recovery.cpp:133-159 | a request looked up at any later point of the run gives the handler the same outcome |
| Guarantees.PublisherCountsBalance | src/exchange_sim/main.cpp:292-335 | packets sent and dropped add up to the sequence numbers used, the dropped ones are that number divided by `skip_every`; sent and dropped messages are each the sizes of their own packets and add up to those emitted |
| Guarantees.BookReplicatesGenerator | src/exchange_sim/main.cpp:159-224 | after n applied messages the handler's live orders are the generator's pool after n calls |
| Guarantees.MarketViewIsGenerators | src/common/order_book.cpp:42-62 | while the generator's per-price sums fit in 32 bits, the handler's levels are the prices and sums of the generator's pool, its BBO is a scan of that pool, and bid <= 10000 < 10001 <= ask |
| Guarantees.AlertsFollowGenerator | src/feed_handler/main.cpp:300-317 | while the generator's per-price sums fit in 32 bits, the BBO alerts raised are exactly the changes a scan of the generator's pool shows, in order |
| Guarantees.SmallPoolsFit | src/exchange_sim/main.cpp:230-237 | those sums do fit while no pool has more than 17,179,869 orders |
| Guarantees.SmallPoolsFitExactly | src/exchange_sim/main.cpp:230-237 | all runs whose pools have at most n orders fit if and only if n is at most 17,179,869 |
| Guarantees.RunOfAdds | src/exchange_sim/main.cpp:159-184 | for every n up to 2^64 - 1 some run of the generator ends with n orders of 250 at one price |
| Wraparound.RunsSurviveExactly | src/feed_handler/main.cpp:395-454 | every run that publishes at most n packets keeps the handler running if and only if n < 2^32 - 1 |
| Wraparound.RunTo | src/exchange_sim/main.cpp:264-335 | for every n up to 2^32 - 1 some run publishes, sends and applies n packets, ending with `expected` at n + 1 wrapped to 32 bits and an empty buffer |
| Runs.PublishTo | src/exchange_sim/main.cpp:264-340 | with any accepted options the publisher can always go on while messages and sequence numbers last, with nothing delivered meanwhile |
| Runs.LossRecovered | src/feed_handler/main.cpp:432-444 | with any accepted options and limit some run loses all of n packets but the last and still ends with every message applied, or `limit` of them; below the limit n - 1 packets are replayed |
| Wraparound.HandlerCanThrow | src/feed_handler/main.cpp:348 | a run of 2^32 - 1 packets in which a duplicate makes the handler throw |
| Wraparound.DuplicatesDiscardedExactly | src/feed_handler/main.cpp:426-444 | a caught-up handler short of any limit, the state `RunTo` reaches, discards every published duplicate if and only if fewer than 2^32 - 1 packets exist; at that number it throws |
| Pipeline.StepKeepsInvariant | src/exchange_sim/main.cpp:266-340 | each step of publisher, network and handler keeps history, network, counters and handler position in step with the published stream |
| Pipeline.RunsKeepInvariant | src/feed_handler/main.cpp:395-454 | that invariant holds in every state any run reaches |
| Pipeline.DeliverPublished | src/feed_handler/main.cpp:407-448 | one published datagram, stale, expected or beyond a gap: the handler stays on the stream, moves to just past it, and replays exactly the gap |
| Pipeline.RecoveryAnswers | src/common/recovery.cpp:211-301 | a range of published packets is answered with exactly those packets |
| PublishedLog.ApplyCarried | src/feed_handler/main.cpp:291-329 | the message loop applies a packet's messages in order and stops exactly at the limit |
| PublishedLog.ReplayWires | src/feed_handler/main.cpp:375-390 | a replay of the missing packets is applied whole, or up to the limit, without throwing |
| HandlingExits.ThrowsExactly | src/feed_handler/main.cpp:407-448 | at any limit, from an empty buffer, a datagram is survived if and only if it is noise, stale, or acceptable after a complete and acceptable recovery of its gap, where only messages before the limit count |
| HandlingExits.ThrowsWhy | src/feed_handler/main.cpp:268-448 | which exception a datagram raises and how many messages have been applied by then: that of recovery, of the count, or of the first unacceptable packet |
| HandlingExits.AppliesReadablePrefix | src/feed_handler/main.cpp:291-329 | however a packet ends, a prefix of readable messages has been applied in order; an exception points at the first unreadable one |
| HandlingExits.ProcessRunsExactly | src/feed_handler/main.cpp:268-349 | at any limit a packet is accepted if and only if it carries the expected number and every message before the limit decodes; the count applied is exact either way, and so is the exception |
| HandlingExits.ReplayRunsExactly | src/feed_handler/main.cpp:385-390 | at any limit and across the 32-bit wrap a replay is accepted if and only if each packet before the limit is the next in sequence and readable up to it |
| HandlingExits.ReplayThrowsAt | src/feed_handler/main.cpp:385-390 | a replay throws at the first unacceptable packet, all before it applied |
| HandlingProofs.RunsStayWithinLimit | src/feed_handler/main.cpp:264-266 | on arbitrary traffic and recovery, even when it throws, the handler never applies more than `limit` messages |
| HandlingProofs.RunsKeepLoopHead | src/feed_handler/main.cpp:395-454 | on arbitrary traffic, at the head of the receive loop the buffer is empty, or holds the one packet the limit left parked; buffered keys match their packets and the counters balance |
| HandlingProofs.GapHandled | src/feed_handler/main.cpp:432-444 | a gap asks for exactly `expected..seq-1` without underflow, then replays all of it and drains the parked packet, or leaves that packet parked where the limit cut the replay short |
| HandlingProofs.NothingAsked | src/feed_handler/main.cpp:364-367 | an empty range or a reached limit asks for nothing |
| HandlingProofs.DrainTakesTheRun | src/feed_handler/main.cpp:351-362 | at any limit and across the 32-bit wrap, a drain of any readable buffer ends, takes exactly the consecutive run from `expected` on, and stops at the first number not there or at the limit |
| HandlingProofs.DrainReachesLeastAbsent | src/feed_handler/main.cpp:351-362 | below the 32-bit end and short of the limit that is the least absent number at or above `expected` |
| FeedHandlers.FeedHandler.ProcessPacketBytes | src/feed_handler/main.cpp:268-349 | the method computes `Process` of the old state |
| FeedHandlers.FeedHandler.DrainBufferedPackets | src/feed_handler/main.cpp:351-362 | the loop computes `Drain` of the old state |
| FeedHandlers.FeedHandler.Replay | src/feed_handler/main.cpp:364-393 | the request computes `RequestReplay` of the old state |
| FeedHandlers.FeedHandler.ReceiveDatagram | src/feed_handler/main.cpp:408-447 | the body of the receive loop computes `OnDatagram` of the old state |
| FeedHandlers.FeedHandler.ReceiveLoop | src/feed_handler/main.cpp:395-454 | the receive loop computes `OnAll`; on the deliveries of any run it does not throw and applies the stream up to the largest number received; on any traffic it never exceeds the limit and leaves the buffer empty unless stopped |
| HandlingProofs.OnAllTakesNext | src/feed_handler/main.cpp:395-454 | the loop handles each further datagram with one more turn, until the limit is reached or a turn throws |
| BookProofs.RunSoundExactly | src/common/order_book.cpp:84-186 | from the empty book every level equals the live quantity at its side and price, and every level has a live order, throughout a run if and only if no sum outgrows 32 bits |
| BookProofs.ApplySoundExactly | src/common/order_book.cpp:15-40 | one message keeps the indexes in step if and only if the sums it leaves fit |
| BookProofs.OverflowBreaksAgreement | src/common/order_book.cpp:150-157 | two adds of 2^32 - 1 and 1 at one price leave its level reading 0 |
| BookProofs.LevelCovers | src/common/order_book.cpp:159-186 | `subtract_level` is never asked for more than the level holds |
| BookProofs.TradeIsModify | src/common/order_book.cpp:125-138 | a trade leaves the book a modify to the same price and the unexecuted rest leaves |
| BookProofs.ModifyIsDeleteThenAdd | src/common/order_book.cpp:103-119 | a modify to a positive quantity equals delete then add if and only if the order is live on that side |
| BookCommutes.ApplyCommutesExactly | src/common/order_book.cpp:84-186 | on a sound book, wrapping sums included, messages about different orders commute if and only if they do not clash at any price: a condition on the sum resting there and on what each takes and puts |
| BookCommutes.CellsCommuteExactly | src/common/order_book.cpp:150-186 | that condition for one level: `add_level` and `subtract_level` calls of two messages end alike if and only if no call finds the level wrapped below what it takes, or erases what the other would leave |
| BookCommutes.ApplyCommutes | src/common/order_book.cpp:84-148 | in particular whenever the adds are positive and the sums after each fit |
| BookCommutes.NewOrdersCommute | src/common/order_book.cpp:84-101 | adds of new orders commute at any quantities, zero and wrapping included |
| BookCommutes.OverflowBreaksCommuting | src/common/order_book.cpp:150-186 | past 32 bits an add of 2^32 - 2 and a delete at one price clash and end in different books |
| BookKeys.CellAfter | src/common/order_book.cpp:84-186 | on any book, what one message does to each level: a take that clips and erases, then a put that wraps |
| BookKeys.KeyAfter | src/common/order_book.cpp:150-186 | a price has a level after a message if and only if the message adds to it or it had one that is not emptied |
| BookKeys.ApplyKeysExactly | src/common/order_book.cpp:159-186 | from a book whose level keys are its live prices, one message keeps them so if and only if it strands no zero-quantity order |
| BookKeys.RunKeysExactly | src/common/order_book.cpp:84-186 | the levels agree and the level keys are the live prices throughout a run if and only if every sum fits and no message strands an order |
| BookKeys.KeysAreLivePrices | src/common/order_book.cpp:150-186 | the level keys of a sound book of positive orders are exactly the live prices |
| BookTops.PositiveRunsAreExact | src/common/order_book.cpp:84-186 | at every point of any run of positive adds whose sums fit, the level keys are the live prices with their sums and the BBO is a scan |
| BookKeys.EmptyOrderLosesItsLevel | src/common/order_book.cpp:84-101 | a concrete run with a zero-quantity add after which a live price has no level |
| BookKeys.BookDeterminedByLive | src/common/order_book.cpp:84-186 | a sound book with the same live orders as one with exact keys is that book if and only if its keys are exact too |
| BookTops.BboIsScanExactly | src/common/order_book.cpp:42-62 | on a sound book the best bid and offer are the highest live buy and lowest live sell price with their totals if and only if those prices have levels |
| BookTops.BboIsScan | src/common/order_book.cpp:42-62 | in particular whenever the level keys are exact |
| BookTops.BboChangedExactly | src/common/order_book.cpp:11-40 | while sums fit, `bbo_changed` holds if and only if the message puts an order beyond a best price, or the best level is emptied or changes its total, zero quantities included |
| BookTops.BboChangedIsScan | src/common/order_book.cpp:11-62 | where the best live prices have levels before and after, that is when a scan of the live orders differs |
| BookTops.ExactKeysListTops | src/common/order_book.cpp:42-62 | they do when the keys are exact and the message strands no order |
| BookTops.ScanMissesLostLevel | src/common/order_book.cpp:84-123 | a delete of one of two zero-quantity orders that changes the best bid and leaves the scan as it was |
| LimitOrderBook.OrderBook.ApplyMessage | src/common/order_book.cpp:15-40 | the object's new maps are `Apply` of the old ones, sound exactly when the sums fit, with the BBO before and after |
| LimitOrderBook.OrderBook.BestBidAndOffer | src/common/order_book.cpp:42-62 | reads the last bid and first ask; on a sound book that is the scan if and only if the best live prices have levels |
| LimitOrderBook.OrderBook.ApplyTrade | src/common/order_book.cpp:125-138 | in-place trade, equal to `Apply` |
| LimitOrderBook.OrderBook.ApplyModify | src/common/order_book.cpp:103-119 | in-place modify, equal to `Apply` |
| Protocol.ParseSerialized | src/common/protocol.cpp:158-243 | parsing a serialized packet returns its sequence, count and stamp; slot i is at offset 14 + 24i and reads back as message i if and only if that message is tagged |
| Protocol.SerializeParsed | src/common/protocol.cpp:158-243 | re-serializing an accepted packet whose messages all decode restores its bytes |
| Protocol.DecodeMake | src/common/protocol.cpp:54-152 | every field given to a `make_*` function is what the `decode_*` functions return, and the message is tagged |
| Protocol.MessageLayout | include/bmdfh/protocol.hpp:33-69 | each message starts with its letter and order id, then side, price and quantity at fixed offsets in network order, the rest zero |
| Protocol.PacketLayout | include/bmdfh/protocol.hpp:27-31 | bytes 0..4, 4..6 and 6..14 are the sequence number, count and stamp in network order, then the messages |
| Protocol.SlotRoundTrip | src/common/protocol.cpp:174-207 | a slot reads back as the message written if and only if tag and side are valid |
| Protocol.SerializePacket | src/common/protocol.cpp:216-243 | the cursor loop writes the packet image, or refuses more than 65535 messages |
| BigEndian.NetworkLayout | src/common/protocol.cpp:26-52 | 16-, 32- and 64-bit fields are laid out most significant byte first |
| BigEndian.NetworkHostNetwork | src/common/protocol.cpp:26-38 | bytes survive decoding and encoding again |
| Histories.PacketHistory.LookupRange | src/common/recovery.cpp:138-159 | the 32-bit counting loop ends for every start and end and returns `RangePackets` |
| Histories.RangeIsExact | src/common/recovery.cpp:138-159 | a range query returns the packets of exactly the stored keys in the closed range, ascending, once each |
| Histories.RangeDependsOnRange | src/common/recovery.cpp:133-159 | stores outside the range do not change its answer |
| Sockets.SendAll | src/common/recovery.cpp:50-70 | whatever the pieces, all bytes go out in order; a failure has sent a proper prefix and needs a failing socket |
| Sockets.RecvExactOrEof | src/common/recovery.cpp:72-96 | whatever the pieces, the buffer holds the next bytes of the stream and no more are consumed; clean and broken ends are told apart |
| Recovery.HandleClient | src/common/recovery.cpp:211-240 | every complete request is answered in order with its framed range, looked up in the history as stores made in between have left it |
| Recovery.StoredExactly | src/common/recovery.cpp:133-136 | after a wave of stores each number holds the last packet stored under it, or what it held before |
| Conversations.StoredInTime | src/common/recovery.cpp:133-230 | a packet stored before a request and not overwritten by then is in the answer to any range that covers it |
| Recovery.RequestPackets | src/common/recovery.cpp:249-301 | the call returns what the response bytes say and consumes exactly them |
| Recovery.ReplayOverTcp | src/common/recovery.cpp:211-301 | request and response under any cutting: the outcome is the one the bytes determine, and an answerable range comes back whole |
| Recovery.ExchangeExactly | src/common/recovery.cpp:228-301 | a range comes back if and only if its packets have 1 to 4096 bytes and number fewer than 2^32 |
| Recovery.ReadResponseExactly | src/common/recovery.cpp:268-301 | whoever wrote the bytes, the client returns packets if and only if the bytes start with the response image of at most the requested number of packets, each of 1 to 4096 bytes |
| Recovery.FramesStopAt | src/common/recovery.cpp:281-298 | after whole frames, which end of stream or size raises which error |
| Recovery.TooManyRefused | src/common/recovery.cpp:271-275 | a count above the range asked for, and nothing else, is refused as too many |
| Recovery.FramesStopAtRefused | src/common/recovery.cpp:231-240 | the server sends the packets before the first it refuses and no more |
| Recovery.RequestLayout | src/common/recovery.cpp:255-262 | a request is the first and the last number in network order |
| Recovery.ResponseLayout | src/common/recovery.cpp:228-240 | a response is the count, then each packet after its 16-bit size |
| Recovery.SmallestOversizedPacket | src/common/recovery.cpp:287-290 | a stored packet of 4097 bytes is sent and refused |
| Recovery.ResponseReadBack | src/common/recovery.cpp:290-301 | when every packet of the range has 1 to 4096 bytes, the client reads exactly the stored packets and stops at the response's last byte, whatever follows |
| Conversations.ConversationStaysAligned | src/common/recovery.cpp:211-301 | any number of answerable requests down one connection, whatever is stored between them, are read back in turn, using up the replies to the last byte |
| Conversations.ConversationExactly | src/common/recovery.cpp:211-301 | the client reads every range as stored if and only if each range is answerable at its request |
| Conversations.RequestInTurn | src/common/recovery.cpp:249-301 | repeated client calls over one arbitrarily cut socket send the requests in order and return what the bytes say |
| Conversations.ConverseOverTcp | src/common/recovery.cpp:211-301 | a whole conversation over two cut sockets with stores in between: unless a socket fails the outcome is the one the bytes determine, and it is the ranges as stored if and only if each is answerable |
| Generators.ReplicaAgrees | src/exchange_sim/main.cpp:157-224 | folding the first n messages gives the pool after n calls; the pool keeps at least three orders |
| Generators.NextMirrored | src/exchange_sim/main.cpp:159-224 | one call changes the pool as its message changes the live orders; adds take the next id, other messages hit a live order |
| Generators.NextExactly | src/exchange_sim/main.cpp:159-224 | from the draw alone: below four orders or for actions under 45 an add with the drawn side, that side's drawn price and the quantity; under 80 a new price and quantity for the picked order only; else its removal |
| Generators.AddsExactly | src/exchange_sim/main.cpp:234-237 | exactly the orders of 10 to 250 at a bid of 9950 to 10000 or an offer of 10001 to 10050 can be drawn |
| Generators.SwapAndPopLive | src/exchange_sim/main.cpp:218-223 | overwriting a slot with the last order and popping removes exactly that slot's order |
| Generators.IdsNeverReused | src/exchange_sim/main.cpp:182-183 | order ids strictly increase over all 2^64 - 1 possible messages |
| Generators.PoolFits | src/exchange_sim/main.cpp:230-237 | with at most 17,179,869 live orders no level overflows |
| Generators.MarketNeverCrosses | src/exchange_sim/main.cpp:235-236 | every bid is at most 10000 and every offer at least 10001 |
| Generators.MarketDataGenerator.NextMessage | src/exchange_sim/main.cpp:159-172 | the method computes `Next` and its message mirrors the change of the pool |
| Publishing.SerializePacketToBuffer | src/exchange_sim/main.cpp:111-148 | writes byte for byte what the library serializer returns, leaves the rest of the buffer alone, and refuses exactly what does not fit |
| Publishing.BufferHolds42 | src/exchange_sim/main.cpp:23-25 | a batch fits the 1024-byte buffer if and only if it has at most 42 messages |
| Publishing.AcceptedExactly | src/exchange_sim/main.cpp:100-107 | argument parsing accepts a batch size if and only if it is not zero and the packet fits the buffer |
| Publishing.ExchangeSim.PublishNext | src/exchange_sim/main.cpp:266-335 | one turn of the loop is a store followed by a drop or a send |

## Left out

- The `while` around a publish turn is the interleaving of `Pipeline`, with `Guarantees.FinishedRun` for its end; the sleep between turns is left out.
- Sockets, epoll, multicast and thread setup, and the server's stop flag: delivery is an arbitrary step and a connection is a byte stream that splits arbitrarily; `epoll`'s nested event loops become one loop over datagrams.
- `rdtsc`, cycle statistics, CPU pinning and the throughput summary: measurement only; `publish_tsc` is carried as an opaque 64-bit field.
- Argument parsing, logging, `describe`, `format_bbo` and `to_string`: text output.
- The random engine and its weights: each draw is any value in its range.
- The history mutex: `store` and `lookup_range` are atomic steps, as each holds the lock throughout.
- The TCP exchange inside a handler step is one atomic step; `Guarantees.StoresMeanwhileDoNotMatter` shows that stores made meanwhile do not matter.
- A delivery step of `Pipeline` uses a connection that does not fail; `Guarantees.FailedRecoveryIsSafe` says what a failing one does to any reached state, after which the handler has stopped for good.
- Recovery of a lost last packet: the handler has no heartbeat, so nothing is claimed beyond the largest sequence number received.
- The receive buffer's 4096-byte truncation: published packets have at most 1022 bytes, and a foreign datagram is any byte string that does not parse.
- 64-bit statistics counters are unbounded naturals.
- Reconnecting after a closed recovery connection: any recovery error ends the handler.
