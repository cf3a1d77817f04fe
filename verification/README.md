# Gossip V1 relay: a verified model

The relay moves signed items between nodes with the exchange HELLO, SUMMARY, REQUEST, TRANSFER,
RECEIPT over a length-prefixed byte stream. This project models the parts that have to agree
with each other and proves what they keep over every input, run or reachable state:

* the session adapter: an incremental frame decoder and the receipt automaton (`Session.dfy`, `SessionRuns.dfy`);
* the payloads of the exchange: digest ids, Bloom filters, summaries, requests, transfers, receipts
  (`Digest.dfy`, `Bloom.dfy`, `Base64Url.dfy`, `Want.dfy`, `Protocol.dfy`, `Transfer.dfy`);
* the envelope store: a primary table, three derived indexes, cursor paging, the expiry sweep and
  the binary codec (`Envelope.dfy`, `EnvelopeTables.dfy`, `EnvelopeStore.dfy`, `Paging.dfy`, `Rfc3339.dfy`);
* the ingest engine, with every store call able to fail (`Ingest.dfy`);
* delivery to a recipient's devices: acknowledgement state, drain budgets and the multi-round
  drain (`Acks.dfy`, `DrainSession.dfy`, `DrainHandlers.dfy`, `DrainLoop.dfy`,
  `DrainConvergence.dfy`, `DrainDelivery.dfy`) and what clients upload (`Uploads.dfy`);
* what a relay serves for what it accepted (`RelayObject.dfy`);
* two relays on one connection as a state machine (`Lockstep.dfy`), one exchange through the
  handlers of both (`Exchange.dfy`), and many connections (`Encounters.dfy`);
* the sliding-window rate limiter (`RateLimiter.dfy`).

`ByteStrings.dfy` and `Ordered.dfy` hold byte strings in their lexicographic order and sorted lists,
`Limits.dfy` the protocol's size limits.
Classes follow the source's objects; each of their methods is proved against a function of the old
state, and the run-level lemmas are about those functions. bbolt is an ordered byte-keyed map whose
update transactions commit as a whole or change nothing (`commit` says which). CBOR, SHA-256 and
the signed item parser are fields of a `World` parameter; clock readings are parameters.

The main results, in the order of the modules that state them last:

* `Lockstep.EncountersNeverGoFatal`: no run of two honest relays breaks, and receipts are truthful;
  `Exchange.ExchangeThroughHandlers`: what each handler sends in an exchange, and that it adds exactly the missing,
  living, previewed items that fit;
  `Encounters.MeetingsReach`: what repeated connections reach, and what they never do.
* `DrainConvergence.DrainAll`: the drain handlers, composed, drain n pending items within n rounds or stall,
  and stall exactly when nothing previewed is servable any more when it is requested;
  `DrainDelivery.DrainStore` says the same of the items of the store itself, in terms of their expiry.
* `DrainHandlers.HandlerOvershootBound`: how far any client can drive a session past its limits, a bound that is reached.
* `RelayObject.ChainPreservesObject`: along any chain of relays, whatever else they store in between, the item stays the same.
* `Ingest.AtMostOneSignal`, `Ingest.AtMostOneTakeIn`, `Ingest.TakesIn`: at most one signal per item, permanent loop
  suppression, and exactly when a message is taken in and what is durable then.
* `SessionRuns.ChunkingIsUnobservable`, `SessionRuns.ReceiptAutomaton`: the session over whole streams and runs.
* `EnvelopeTables.RunsAgree`, `EnvelopeStores.SweepExactToTheSecond`, `Paging.PagingRefinesList`: the store.
* `RateLimiters.SlidingWindowBound`, `RateLimiters.CleanupChangesNoDecision`: the limiter.

Where an expected property does not hold of the code, the code is kept and the exact condition is proved:

* RFC3339Nano text order is time order across seconds; inside one second it is wrong exactly when one
  trimmed fraction is a proper beginning of the other (`Rfc3339.TextOrderWithinSecond`, with the concrete
  pair in `Rfc3339.HalfSecondSortsFirst`), so the sweep is exact to the second only.
* A relayed object's base64 text comes back unchanged exactly when it held no CR or LF, which Go's decoder
  skips even in strict mode; its bytes always do (`RelayObject.RelayPreservesObject`).
* The envelope codec is lossless exactly on envelopes whose fields fit their widths (`Envelopes.CodecExact`).
* An item is listed as eligible at the very nanosecond of its expiry but no longer served then
  (`RelayObject.ListedIffServed`).
* Without an envelope store a swept message is signalled again (`Ingest.NoStoreSignalsAgain`).
* A drain does not always converge. A request is answered by a TRANSFER, and a next SUMMARY follows, iff
  something previewed is still servable when the request is handled (`DrainConvergence.DriveRound`,
  `DrainHandlers.TransferIffServable`), that is, iff not all of it has expired (`DrainDelivery.StallIffExpired`);
  otherwise the session idles. `DrainDelivery.StallLosesAnItem` is such a store, with an undelivered item still pending.
* Round, streak and yield limits are not kept by every client, since handlers complete rounds without asking
  first (empty requests, own summaries with nothing wanted, uploads, receipts after another round). The round
  budget is passed by at most one plus the empty requests in a row, the no-progress cap by at most one plus the
  unchecked no-progress rounds, and at most as many yield points as rounds completed without asking
  (`DrainHandlers.HandlerOvershootBound`). Each bound is reached (`DrainHandlers.RoundOvershootIsReached`,
  `DrainHandlers.StreakOvershootIsReached`, `DrainHandlers.YieldOvershootIsReached`). A client that sends one
  frame in each chunk keeps the round budget whatever it sends (`DrainHandlers.PacedClientsKeepRoundBudget`), and
  one that only receives, requests something each time and not while a receipt is due keeps all limits
  (`DrainHandlers.OrderlyClientsKeepLimits`).
* An honest TRANSFER over the byte budget is taken up to the budget: object i is accepted iff the envelope
  bytes up to and including it are at most 524288 (`Lockstep.GenuineTransferRule`).
* Repeated connections do not synchronise two relays. The summary of a connection previews the first 64 eligible
  ids, so k connections bring exactly a beginning of what is missing of those (`Encounters.MeetingsReach`), and an
  id of a later rank is never requested while they stay eligible (`Encounters.LaterRanksAreNeverAsked`).
* A committed envelope keeps the indexes exact iff what decodes of it has its id, destination and expiry
  (`EnvelopeTables.PersistAgreesIff`).
* A destination that holds a NUL shares its keys with ids of the part before the NUL (`EnvelopeStores.NulDestination`).
* A second TRANSFER sent before the first is acknowledged makes the first receipt fatal unless all it
  acknowledges was sent again (`Lockstep.OverlappingTransfers`), hence one outstanding REQUEST per direction.

Two lemmas show that a hypothesis is needed: without the gate rounds pass any budget
(`DrainSessions.UngatedRoundsPassTheBudget`), and a receipt with a repeated id, which the receipt parser refuses,
would be counted twice (`Acks.DuplicateReceiptOvercounts`).

## Model

| member | source | states |
|---|---|---|
| `Lockstep.EncountersNeverGoFatal` | internal/federation/peering.go:410-522 | in every state of every run of two honest relays with one outstanding REQUEST per direction, both sessions are alive, the next message is handled without a fault whatever the stores decide, each side knows every id it acknowledged unless removed since, and ids confirmed by a receipt were acknowledged by the peer |
| `Lockstep.RunKeepsInv` | internal/federation/peering.go:355-522 | the two-sided invariant holds along every run: HELLO opens each direction, every message in flight is well built, each exchange is idle, asked, given, acknowledged or acknowledged-and-asked-again |
| `Lockstep.ActKeepsInv` | internal/federation/peering.go:355-522 | every single action of one endpoint keeps the invariant |
| `Lockstep.DeliverHello` | internal/federation/peering.go:419-443 | a HELLO in flight parses, matches the known node id and leads to HELLO and SUMMARY in order |
| `Lockstep.DeliverSummary` | internal/federation/peering.go:935-956 | a SUMMARY in flight parses after HELLO, and the REQUEST it leads to is well built |
| `Lockstep.DeliverRequest` | internal/federation/peering.go:958-984 | a REQUEST in flight parses, and the expectation set matches the TRANSFER sent |
| `Lockstep.DeliverTransfer` | internal/federation/peering.go:986-1060 | a TRANSFER in flight parses, and the RECEIPT it leads to passes the sender's expectation check |
| `Lockstep.DeliverReceipt` | internal/gossipv1/session.go:164-215 | a RECEIPT in flight passes the parser and the expectation check and settles the exchange |
| `Lockstep.TakeInKeeps` | internal/federation/peering.go:1014-1049 | after a TRANSFER the tables agree and hold every acknowledged id; ids are acknowledged once and only if sent |
| `Lockstep.ParsedIdsWereSent` | internal/gossipv1/protocol.go:595-700 | the ids parsed from a frame are among the ids put in it, without repeats |
| `Lockstep.WantIsGood` | internal/federation/peering.go:1100-1198 | every computed request is strictly digest-sorted and at most 256 long |
| `Lockstep.GenuineTransferRule` | internal/gossipv1/protocol.go:595-700 | of distinct genuine objects, one is accepted iff the envelope bytes up to and including it keep to the budget, and refused for its size otherwise |
| `Lockstep.GenuineTransferIsTakenWhole` | internal/gossipv1/protocol.go:595-700 | so within the byte budget they are parsed whole, in order, with no rejection |
| `Lockstep.HonestTransfersAreGenuine` | internal/federation/peering.go:1242-1276 | what is built for a request from a store filled by accepting objects is genuine and without repeats |
| `Lockstep.HonestWant` | internal/federation/peering.go:935-956 | the request for an honest relay's summary names exactly the previewed ids not known here |
| `Lockstep.HonestAnswer` | internal/federation/peering.go:958-984 | it is answered with the first 32 previewed objects that are missing there and still alive |
| `Lockstep.ParsedPrefix` | internal/gossipv1/protocol.go:595-700 | of distinct genuine objects the peer parses exactly the longest beginning within the byte budget |
| `Lockstep.ExchangeDelivers` | internal/federation/peering.go:935-1060 | when its engine takes what it is given, writing envelopes of its own or not, one exchange adds to the asker's store exactly the first 32 previewed items it misses that are still alive, as far as their bytes keep to the budget, and it acknowledges exactly these |
| `Exchange.ExchangeThroughHandlers` | internal/federation/peering.go:410-522 | the same through the handlers of both relays, byte stream included: the giver's SUMMARY makes the asker send one REQUEST for exactly the previewed ids it does not know, or nothing if there are none; that makes the giver send one TRANSFER of the first 32 of them still alive; that makes the asker store exactly those within the byte budget and send their RECEIPT; and that makes the giver record exactly these as confirmed; from then on both serve them as the same items |
| `Exchange.HelloAnswered` | internal/federation/peering.go:419-443 | a valid HELLO closes the session iff another node id was known, and otherwise is answered with HELLO and SUMMARY, each once |
| `Exchange.SummaryAnswered` | internal/federation/peering.go:935-956 | an honest SUMMARY is answered with one REQUEST, for exactly the previewed ids not known here, or with nothing if there are none |
| `Exchange.RequestAnswered` | internal/federation/peering.go:958-984 | a REQUEST is answered with one TRANSFER of the first 32 wanted objects that are stored and alive, as stored, and a receipt is expected for exactly them |
| `Exchange.TransferAnswered` | internal/federation/peering.go:986-1060 | a TRANSFER of genuine objects the engine takes makes the store grow by exactly those within the byte budget, and is answered with one RECEIPT for exactly them |
| `Exchange.ReceiptAnswered` | internal/federation/peering.go:1081-1090 | a RECEIPT for part of what was sent is recorded, settles the expectation and is not answered |
| `Exchange.EmptyRequestAnswered` | internal/federation/peering.go:958-967 | an empty REQUEST is not answered |
| `Exchange.HelloFirst` | internal/federation/peering.go:444-475 | before HELLO a SUMMARY, a REQUEST or a TRANSFER closes the session, however well formed |
| `Exchange.TakenIff` | internal/federation/peering.go:1014-1049 | of genuine objects exactly those are acknowledged, in order, that pass validation, are not signed to expire by their creation, are taken by the engine and fit the store |
| `Exchange.EngineTakesIff` | internal/federation/peering.go:1021-1049 | with working calls the ingest engine takes an object that passed validation iff its payload keeps to the limit and it has not expired, whether new, there already or a loop, and writes that item's envelope only: what an exchange assumes of the engine |
| `Exchange.TakenAreServed` | internal/federation/peering.go:1014-1049 | each object taken in is served from then on as the same item |
| `Exchange.BuiltObjects` | internal/federation/peering.go:1242-1276 | what is built for a request: the first 32 wanted ids that are stored and alive, each as it is loaded, genuine and once |
| `Lockstep.AcceptableIff` | internal/federation/peering.go:1278-1337 | a genuine object is acceptable to a peer iff it passes validation and is not signed to expire by its creation |
| `Encounters.MeetingsReach` | internal/federation/peering.go:887-1060 | over an unchanged giver k connections add exactly a beginning of what the asker lacks of the first 64 eligible ids: at least k of them if each fits a transfer, 32k or all if the envelopes are small, and nothing else |
| `Encounters.MeetingBrings` | internal/federation/peering.go:935-1060 | one connection takes at most 32 ids off the front of what is lacking |
| `Encounters.MeetingIsHandled` | internal/federation/peering.go:887-1060 | a connection is what the handlers do: their chain of SUMMARY, REQUEST, TRANSFER and RECEIPT leaves the asker with exactly these tables |
| `Encounters.PreviewStays` | internal/federation/peering.go:887-932 | while the first 64 eligible ids stay eligible every later summary previews exactly them |
| `Encounters.LaterRanksAreNeverAsked` | internal/federation/peering.go:887-956 | meanwhile no other id is ever requested, whatever the giver holds |
| `Lockstep.OverlappingTransfers` | internal/gossipv1/session.go:58-72 | after two transfers in a row the first one's receipt passes iff all it acknowledges was sent again |
| `DrainConvergence.DrainAll` | internal/api/ws.go:539-712 | with summary i built and its request handled at any two successive times, the composed handlers end within as many rounds as items were pending, with a SUMMARY of item count 0 or in a stall where nothing of the last preview was servable when requested; never in a stall if what was pending and is eligible stays servable that long; only pending items get acknowledged |
| `DrainConvergence.DriveRound` | internal/api/ws.go:631-712 | in a round whose request is handled after its summary was built, a next SUMMARY follows iff something previewed is still servable, and it counts fewer items; otherwise acknowledgements, cursor and expectation stay as they are |
| `DrainConvergence.AnswerRequest` | internal/api/ws.go:631-712 | the transfer holds what of the preview is servable when requested, at most 32, and a receipt is expected for exactly that |
| `DrainConvergence.TakeReceipt` | internal/api/ws.go:919-996 | the receipt for a transfer leads to the next SUMMARY, over strictly fewer pending ids |
| `DrainDelivery.DrainStore` | internal/api/ws.go:539-996 | over a store filled by accepting objects, loaded from that store: item count 0 is reached if no pending item expires between a summary and its request; otherwise all last previewed items had expired; at item count 0 every item was acknowledged or has expired |
| `DrainDelivery.StallIffExpired` | internal/api/ws.go:631-712 | over such a store a round stalls iff everything previewed has expired when it is requested |
| `DrainDelivery.StallLosesAnItem` | internal/api/ws.go:695-708 | sixty-five genuine objects accepted into an empty store: the sixty-four previewed ones expire before they are requested, nothing is servable, although the last is pending and servable |
| `DrainConvergence.NoStallWhileServable` | internal/api/ws.go:631-712 | no stall when what is pending at the summary is servable at the request |
| `DrainConvergence.RoundShrinks` | internal/api/ws.go:631-712 | a round removes exactly the ids servable when requested, at most 32, and none iff it stalls |
| `DrainConvergence.DrainConverges` | internal/api/ws.go:919-996 | n pending items are drained after n rounds that do not stall, whatever the cursor does and the clock between summary, request and receipt |
| `DrainConvergence.NoItemIsDropped` | internal/api/ws.go:631-712 | with the summary clock standing still k rounds remove at most 32k items, stalled or not |
| `DrainConvergence.WaitingNeverAdds` | internal/store/envelope_store.go:395-407 | a later clock never adds a pending id |
| `DrainConvergence.PendingIsCovered` | internal/api/ws.go:1278-1350 | every pending id is previewed within ceil(n/64)+1 summaries, no acknowledged or expired id ever is, and a preview is empty iff nothing is pending |
| `DrainLoop.ClientSession.BuildRecipientSummary` | internal/api/ws.go:1278-1350 | preview, item count, next cursor and Bloom filter are those of the unacknowledged eligible ids; refused iff the cursor is malformed or a needed page or ack lookup fails |
| `DrainLoop.ClientSession.SelectPending` | internal/api/ws.go:1286-1337 | the pending ids, their preview after the cursor with wrap-around, and the next cursor, under the same refusals |
| `DrainLoop.ClientSession.PreviewOf` | internal/api/ws.go:1315-1337 | up to 64 ids after the cursor, or the first 64 when none is left |
| `DrainLoop.ClientSession.DropAcked` | internal/api/ws.go:1299-1312 | exactly the ids without an ack key of the identity, in order; refused iff one of the lookups fails |
| `DrainLoop.ClientSession.SendDrainSummary` | internal/api/ws.go:539-593 | gate, summary of the pending ids, cursor move, completed round when empty, and the send under byte budget and backpressure: new state, cursor and reply in every case |
| `DrainLoop.ClientSession.SendEnvelope` | internal/api/ws.go:1429-1505 | encodes, asks for the bytes, queues and records them; what stops it and the drain state after |
| `DrainLoop.ClientSession.HandleRequest` | internal/api/ws.go:631-712 | reply, drain state and expectation in every case: empty, not allowed, failed lookup, nothing servable, or the first 32 servable ids sent in order |
| `DrainLoop.ClientSession.Serve` | internal/api/ws.go:659-697 | the loop finds the first 32 servable ids; it fails iff a failed lookup is met before that |
| `DrainLoop.ClientSession.HandleReceipt` | internal/api/ws.go:919-996 | stores the acknowledgements, counts the new ones, completes the round, and sends the next summary exactly when there are new ones; a failed store changes neither acknowledgements, drain state nor cursor |
| `DrainLoop.ClientSession.HandleSummary` | internal/api/ws.go:595-629 | requests what the client's summary offers and is missing here, or sends an empty request and completes a round; drain state and reply in every case; an unlimited session whose lookups work and whose queue is free replies with that REQUEST |
| `DrainLoop.HonestOfferIsRequested` | internal/api/ws.go:595-629 | of an honest client's summary within its own limit exactly the previewed ids unknown here are requested |
| `Uploads.HandleTransfer` | internal/api/ws.go:714-807 | tables, drain state and receipt after a client's objects: each stored or refused on its own, a round with progress iff some are stored, an abort at the first failed lookup; an exact store stays exact if all envelopes are storable; an unlimited session with a free queue replies with that RECEIPT |
| `Uploads.ImportOne` | internal/api/ws.go:741-782 | one object: its message is there, or stored with the engine's envelope, then the transferred envelope replaces it; accepted iff that commits |
| `Uploads.WriteEngine` | internal/storeforward/client.go:62-83 | the engine's envelope beside a new message: the one there or one made of it, with its origin filled in |
| `Uploads.ImportKeeps` | internal/api/ws.go:741-782 | with storable envelopes the tables stay exact, hold every accepted id and grow only by ids sent |
| `Uploads.ImportedIds` | internal/api/ws.go:741-782 | every accepted id was sent and is accepted once |
| `Uploads.WorkingImportTakes` | internal/api/ws.go:741-782 | with working stores, of genuine objects with distinct ids exactly those are accepted, in order, that pass validation and whose envelopes the store can hold |
| `Uploads.UploadIsServed` | internal/api/ws.go:714-807 | every upload acknowledged is served from then on as the same item |
| `Uploads.ObjectIff` | internal/api/ws.go:741-782 | the same of one object |
| `Uploads.ImportIsLocal` | internal/api/ws.go:741-782 | an import touches the entries of the ids sent only |
| `DrainLoop.CountTransitions` | internal/api/ws.go:934-946 | counts the listed ids newly marked |
| `DrainLoop.UnackedIsIdList` | internal/api/ws.go:1278-1350 | the pending list is strictly sorted digests and holds exactly the eligible ids without ack |
| `EnvelopeTables.RunsAgree` | internal/store/envelope_store.go:66-156 | after any sequence of persists, removes and reopens, committed or not, all indexes are exact images of the primary table, which is the run of a plain map |
| `EnvelopeTables.PersistKeepsAgreement` | internal/store/envelope_store.go:100-156 | a persist commits iff valid and accepted, sets one entry, and rolls back its early deletions otherwise; indexes stay exact |
| `EnvelopeTables.PersistAgreesIff` | internal/store/envelope_store.go:100-156 | for every envelope committed the indexes stay exact iff what decodes of it is storable and has its id, destination and expiry |
| `EnvelopeTables.RefusedIff` | internal/store/envelope_store.go:100-156 | a persist is refused exactly for a missing id or destination, a zero time, an expiry before the creation, a key or value that is too long or a failed commit, and then nothing changes |
| `EnvelopeTables.RemoveKeepsAgreement` | internal/store/envelope_store.go:345-371 | a remove drops the entry from every table |
| `EnvelopeTables.BackfillRepairs` | internal/store/envelope_store.go:66-89 | opening a database with missing expiry entries completes it |
| `EnvelopeTables.BackfillOfExact` | internal/store/envelope_store.go:66-89 | opening an exact database changes nothing |
| `EnvelopeTables.EmptyAgrees` | internal/store/envelope_store.go:30-64 | a new database is exact |
| `EnvelopeStores.EnvelopeStore.constructor` | internal/store/envelope_store.go:25-64 | a new store is exact and empty |
| `EnvelopeStores.EnvelopeStore.PersistEnvelope` | internal/store/envelope_store.go:100-156 | for every envelope the new tables and result, unchanged tables on refusal, and whether the store stays exact; on storable ones exactly that entry changes |
| `EnvelopeStores.EnvelopeStore.RemoveEnvelope` | internal/store/envelope_store.go:345-371 | the new tables, without the entry |
| `EnvelopeStores.EnvelopeStore.Reopen` | internal/store/envelope_store.go:66-89 | backfills, and keeps the contents of an exact store |
| `EnvelopeStores.FillExpiry` | internal/store/envelope_store.go:66-89 | the loop adds exactly the missing expiry entries of decodable envelopes |
| `EnvelopeStores.EnvelopeStore.GetEnvelopeById` | internal/store/envelope_store.go:159-174 | the stored envelope or nothing |
| `EnvelopeStores.EnvelopeStore.GetAllEnvelopeIds` | internal/store/envelope_store.go:302-343 | the sorted list of the eligible ids of the primary table, although it scans indexes only |
| `EnvelopeStores.EnvelopeStore.GetEnvelopeIdsByDestinationPage` | internal/store/envelope_store.go:220-299 | for every byte string as destination the first `limit` eligible ids filed under it after the cursor, their total, and the last one as next cursor; these are its own ids if it has no NUL; error iff a malformed cursor with a positive limit |
| `EnvelopeStores.EnvelopeStore.ScanDestination` | internal/store/envelope_store.go:259-281 | the prefix scan from the cursor yields exactly that stretch, for every destination |
| `EnvelopeStores.UnderIsFor` | internal/store/envelope_store.go:373-393 | what is filed under a destination without NUL is what is addressed to it |
| `EnvelopeStores.NulDestination` | internal/store/envelope_store.go:373-393 | under a destination with a NUL are filed exactly the ids of its first part that continue with its second |
| `EnvelopeStores.EnvelopeStore.GetExpiredEnvelopes` | internal/store/envelope_store.go:423-459 | exactly the envelopes whose timestamp text is at most the bound, each once, although the scan breaks early |
| `EnvelopeStores.EnvelopeStore.SweepExpiredEnvelopes` | internal/storeforward/federation_forwarding.go:209-228 | removes those envelopes from every table; after a failing remove the count is still the number of entries gone, all of them expired |
| `EnvelopeStores.SweepExactToTheSecond` | internal/store/envelope_store.go:423-459 | earlier seconds are swept, later ones are not, and in the boundary second the sweep follows the clock iff the fractions do not clash |
| `EnvelopeStores.NothingExpiredPast` | internal/store/envelope_store.go:429-452 | when the scan breaks, every expired key has been passed |
| `EnvelopeStores.ExpiryKeyOrder` | internal/model/envelope.go:206-212 | key order implies timestamp text order |
| `EnvelopeStores.EligibleItemAgrees` | internal/store/envelope_store.go:395-407 | the test on the expiry table is the test on the primary table |
| `EnvelopeStores.PrefixMeansDestination` | internal/store/envelope_store.go:373-393 | a key with the destination's prefix exists iff that destination holds the id |
| `EnvelopeStores.ScanResult` | internal/store/envelope_store.go:220-299 | a prefix scan stopped by limit or prefix end is the page of the sorted list |
| `Paging.PagingRefinesList` | internal/store/envelope_store.go:220-299 | following cursors visits every id once in order and ends with the only empty page, for any positive limit |
| `Paging.PageIsStretch` | internal/store/envelope_store.go:220-299 | a page is the next stretch of the list and its last id is the position reached |
| `Paging.PreviewIsStretch` | internal/api/ws.go:1278-1350 | a preview is 64 consecutive ids from the cursor or, past the end, from the start; empty iff the list is |
| `Paging.EveryIdIsPreviewed` | internal/api/ws.go:1278-1350 | from any cursor the i-th id is in a preview named by a formula, within ceil(n/64)+1 calls |
| `Envelopes.RoundTrip` | internal/model/envelope.go:101-188 | decoding an encoded envelope in range gives it back |
| `Envelopes.CodecExact` | internal/model/envelope.go:101-188 | the codec is lossless iff the envelope is in range |
| `Envelopes.DecodedInRange` | internal/model/envelope.go:135-188 | whatever decodes is in range |
| `Envelopes.EncodeExample` | internal/model/envelope.go:101-133 | one envelope written out byte by byte |
| `Envelopes.ExpiryKeyInjective` | internal/model/envelope.go:206-212 | an expiry key determines time and id |
| `Rfc3339.TextOrderAcrossSeconds` | internal/model/envelope.go:206-212 | timestamp text order is time order across seconds |
| `Rfc3339.TextOrderWithinSecond` | internal/model/envelope.go:206-212 | within a second it is time order iff neither trimmed fraction is a proper beginning of the other |
| `Rfc3339.HalfSecondSortsFirst` | internal/model/envelope.go:206-212 | a whole second's text sorts after the half second that follows it |
| `Rfc3339.SecondTextOrder` | internal/model/envelope.go:206-212 | fixed-width second texts sort by time over four-digit years |
| `Rfc3339.CivilOrder` | internal/model/envelope.go:206-212 | later days have later civil dates |
| `Rfc3339.CivilOfDate` | internal/model/envelope.go:206-212 | every calendar date of years 0 to 9999 is the civil date of its day |
| `Rfc3339.EpochDay` | internal/model/envelope.go:206-212 | day numbers and Unix time share their zero, 1970-01-01 |
| `Rfc3339.TextExample` | internal/model/envelope.go:206-212 | one timestamp written out: 2001-02-03T04:05:06.07Z |
| `Ingest.AtMostOneSignal` | internal/storeforward/federation_forwarding.go:42-150 | over every run with any failures and sweeps an item is signalled exactly as often as its marker newly appears: at most once, and once if it appears |
| `Ingest.SignalAfterDurable` | internal/storeforward/federation_forwarding.go:42-150 | a signal is sent only when message and marker are durable |
| `Ingest.IngestedMarkers` | internal/storeforward/federation_forwarding.go:102-149 | a call signals iff its marker step created the marker, and success implies the marker |
| `Ingest.NoStoreSignalsAgain` | internal/storeforward/federation_forwarding.go:102-149 | without an envelope store, two signals for a message swept in between |
| `Ingest.AtMostOneTakeIn` | internal/storeforward/federation_forwarding.go:64-94 | per item and source relay at most one successful call in a run is Accepted or Duplicate |
| `Ingest.MarkedSuppresses` | internal/storeforward/federation_forwarding.go:64-94 | a successful unexpired call is SeenLoop iff the pair was marked |
| `Ingest.TakesIn` | internal/storeforward/federation_forwarding.go:42-150 | with an envelope store and working calls a valid, unexpired message within the payload limit is Accepted iff it was absent and the pair unmarked, Duplicate iff it was there and the pair unmarked, and a loop otherwise; when taken in, message, envelope (id, recipient, payload and expiry of the message, hop 0 and the source as origin if none was there), the marks of source and own relay and the marker are durable, and one signal goes out iff the marker is new |
| `Ingest.TakesInWithoutStore` | internal/storeforward/federation_forwarding.go:42-150 | without an envelope store it is Accepted and signalled iff it was absent |
| `Ingest.RefusalsMean` | internal/storeforward/federation_forwarding.go:42-62 | what is refused as invalid, too large or expired, each exactly then and with nothing written; a failed call never signals |
| `Ingest.SeenKeysIsolate` | internal/model/envelope.go:215-222 | each pair of item and relay has its own seen key |
| `Ingest.MarksInSteps` | internal/store/envelope_store.go:483-541 | step by step, the keys of the first relays are written, one for each working call, and the marker last; in one transaction all or nothing; the marker is reported new iff it was absent |
| `Ingest.Engine.AcceptRelayForward` | internal/storeforward/federation_forwarding.go:42-150 | durable state, outcome and signals of a call under any failures |
| `Ingest.Engine.PersistEnvelopeState` | internal/storeforward/federation_forwarding.go:230-255 | stores the existing or derived envelope with its origin filled in, or nothing |
| `Ingest.Engine.Mark` | internal/store/envelope_store.go:483-541 | marks in one transaction or step by step, reporting whether the marker is new |
| `Ingest.ReservedOnce` | internal/storeforward/federation_forwarding.go:188-207 | a forwarding target is granted at most once per envelope and relay, over any run in between |
| `Ingest.ReserveMeans` | internal/storeforward/federation_forwarding.go:188-207 | with working calls a target is granted iff it was not marked or there is nothing to mark, and granting marks exactly it |
| `Ingest.PrepareMeans` | internal/storeforward/federation_forwarding.go:153-186 | with working calls a forward is prepared iff its envelope can be stored and is unexpired and one hop more keeps to a positive limit; it is that envelope with one hop more, stored, and marked as seen here |
| `Ingest.HopsWithinLimit` | internal/storeforward/federation_forwarding.go:153-186 | a prepared forward has one hop more than the stored envelope, or one for a new one, within a positive limit, unexpired, and is what is stored |
| `RelayObject.RelayPreservesObject` | internal/api/ws.go:1137-1201 | validate, persist, decode, load gives the same id, bytes, content, expiry and hop count; the same text iff it held no CR or LF |
| `RelayObject.RelayServesWhatItKept` | internal/api/ws.go:1357-1385 | a relay serves what it accepted after any run of store operations on other items |
| `RelayObject.ChainPreservesObject` | internal/api/ws.go:1357-1385 | so along every chain of relays with such runs in between the item stays the same |
| `RelayObject.FilledStoreIsGenuine` | internal/api/ws.go:1137-1154 | a store filled by accepting genuine objects holds their bytes under their own hash |
| `RelayObject.LoadedIsGenuine` | internal/api/ws.go:1357-1385 | whatever is loaded from such a store is genuine |
| `RelayObject.ExpirySurvives` | internal/api/ws.go:1156-1201 | the stored expiry reads back as the object's milliseconds |
| `RelayObject.AcceptedEnvelopeIsValid` | internal/api/ws.go:1137-1154 | every accepted object in range makes a valid envelope |
| `RelayObject.MessageIff` | internal/api/ws.go:1156-1201 | a genuine object passes validation iff sender and recipient are named, the payload text decodes, a signed expiry is the announced one and it lies after the creation or after now; its message has the signed sender, recipient, payload and times, created a second before an expiry that is not later |
| `RelayObject.PayloadTextMeans` | internal/api/ws.go:1156-1201 | payload text passes iff it is not empty, holds no white space or padding and decodes strictly; encoder output does |
| `RelayObject.StoredFields` | internal/api/ws.go:1137-1154 | the stored envelope has the object's bytes and hop count, and recipient and times of its message |
| `RelayObject.KeepWrites` | internal/api/ws.go:1137-1154 | accepting sets exactly the item's own entry |
| `RelayObject.SmallObjectsAreKept` | internal/store/envelope_store.go:100-156 | an object that validates, fits the codec and makes short enough keys is stored, whatever else is there |
| `RelayObject.FilledStoreIsServable` | internal/api/ws.go:1137-1201 | a store filled by accepting objects files each under its recipient, with an expiry in whole milliseconds |
| `RelayObject.ServableIff` | internal/api/ws.go:631-712 | from such a store an item is served iff to its recipient and before its expiry |
| `RelayObject.ListedIffServed` | internal/api/ws.go:631-712 | a kept item is served iff it is listed and this is not the nanosecond of its expiry |
| `SessionRuns.ChunkingIsUnobservable` | internal/gossipv1/session.go:82-188 | any chunking of a stream gives the same events and end state |
| `SessionRuns.StreamCutsBack` | internal/gossipv1/protocol.go:307-319 | a concatenation of length-prefixed frames is cut back into those frames |
| `SessionRuns.PrefixedCuts` | internal/gossipv1/protocol.go:307-319 | a prefixed frame is the next frame cut |
| `SessionRuns.ReceiptAutomaton` | internal/gossipv1/session.go:58-215 | over every run the order list and index stay inverse and duplicate-free, each receipt event acknowledges a duplicate-free part of the latest expectation, receipts never outnumber expectations, and a fatal event is the last |
| `SessionRuns.ReceiptCheckExact` | internal/gossipv1/session.go:190-215 | a receipt passes iff one is awaited and it lists, without repeats, expected ids |
| `SessionRuns.ExpectedInOrder` | internal/gossipv1/session.go:58-72 | distinct non-empty ids are expected in the order given |
| `SessionRuns.DrainReceipts` | internal/gossipv1/session.go:82-188 | the same for the frames of one push |
| `SessionRuns.SilentAfterEnd` | internal/gossipv1/session.go:82-90 | a terminated session produces nothing more |
| `Sessions.SessionAdapter.PushInbound` | internal/gossipv1/session.go:82-188 | the loop over the buffer computes the recursive drain: state and events |
| `Sessions.SessionAdapter.HandleOne` | internal/gossipv1/session.go:114-187 | one frame: new state and event, for every kind and error |
| `Sessions.FrameLengths` | internal/gossipv1/session.go:82-112 | the announced length alone decides whether a buffer is cut, waits or ends the session |
| `Sessions.FaultMeans` | internal/gossipv1/session.go:190-215 | the reason a receipt is refused for: none awaited, something for an empty transfer, or the first id that is unknown or repeated |
| `Sessions.IngestByTrust` | internal/gossipv1/session.go:114-187 | an ingest notice is passed on from a trusted peer and counted from any other |
| `Sessions.BadFramesEnd` | internal/gossipv1/session.go:114-187 | a frame of unknown type, or whose payload does not parse, ends the session with that cause |
| `Sessions.SessionAdapter.SetExpectedReceipt` | internal/gossipv1/session.go:58-72 | the distinct non-empty ids in order, with their index |
| `Sessions.SessionAdapter.ValidateExpectedReceipt` | internal/gossipv1/session.go:190-215 | the first fault of a receipt |
| `Sessions.SessionAdapter.IsHealthy` | internal/gossipv1/session.go:224-226 | healthy iff HELLO was validated and nothing was fatal, the gate of every later handler |
| `Sessions.HandleIgnoresBuffer` | internal/gossipv1/session.go:114-187 | handling a frame depends on everything but the unread bytes |
| `Want.WantMeetsSpec` | internal/api/ws.go:998-1096 | the request is sorted, bounded, holds only unknown Bloom hits, takes a candidate only after every wanted preview id, and is complete below the limit |
| `Want.HonestPreviewIsRequested` | internal/federation/peering.go:1100-1198 | for an honest summary the filter drops nothing: exactly the unknown preview ids are requested |
| `Want.ComputeMissingWant` | internal/api/ws.go:998-1096 | the loops compute that request; refused only for a malformed id or failed lookup |
| `Want.Collect` | internal/api/ws.go:1029-1092 | one pass appends the wanted ids up to the limit |
| `Bloom.Build` | internal/gossipv1/protocol.go:509-530 | a bit is set iff some item hashes to it |
| `Bloom.BitIsFromLastBytes` | internal/gossipv1/protocol.go:509-530 | the bit of an item and a number is given by the seventh and eighth byte of the hash of both |
| `Bloom.MightContain` | internal/gossipv1/protocol.go:544-565 | true iff the id is a digest and all its bits are set |
| `Bloom.NoFalseNegatives` | internal/gossipv1/protocol.go:509-565 | every item of the filter is found |
| `Bloom.FalsePositiveIsCovered` | internal/gossipv1/protocol.go:544-565 | every bit of an id that is found was set by an item |
| `Bloom.FilterUnique` | internal/gossipv1/protocol.go:509-530 | the items determine every byte of the filter |
| `Digest.DigestOrderIsTextOrder` | internal/gossipv1/protocol.go:831-845 | digest order is plain text order on every pair of strings |
| `Digest.DigestBijection` | internal/gossipv1/protocol.go:1423-1435 | ids and 32-byte digests are in bijection |
| `Digest.DigestMeans` | internal/gossipv1/protocol.go:1423-1435 | an id is well formed iff it is 64 lower-case hexadecimal digits |
| `Digest.SortIdsCorrect` | internal/gossipv1/protocol.go:847-854 | sorting distinct ids yields their sorted enumeration |
| `Digest.NormalizeIds` | internal/gossipv1/protocol.go:856-876 | the sorted set of the ids, or refused iff one is malformed |
| `Digest.NormalizeIdsDropInvalid` | internal/gossipv1/protocol.go:924-944 | the sorted set of the well-formed ids |
| `Digest.ValidateSortedUnique` | internal/gossipv1/protocol.go:882-909 | accepts exactly the strictly sorted lists of digests |
| `Base64Url.RoundTrip` | internal/gossipv1/protocol.go:1198-1213 | decoding encoded bytes gives them back |
| `Base64Url.StrictTextPreserved` | internal/gossipv1/protocol.go:1198-1213 | re-encoding strictly decoded text gives it back without its CR and LF |
| `Base64Url.Examples` | internal/gossipv1/protocol.go:1198-1213 | texts written out, the two characters of the URL alphabet, and a last character with spare bits that strict decoding refuses |
| `Protocol.RelayHelloParses` | internal/gossipv1/protocol.go:276-416 | every relay's HELLO passes the parser unchanged |
| `Protocol.ParseHello` | internal/gossipv1/protocol.go:352-416 | whatever parses is a valid HELLO: key, node id and limits agree |
| `Protocol.HelloParses` | internal/gossipv1/protocol.go:352-416 | every valid HELLO parses back unchanged, and whatever parses has exactly the fields of the payload: version, node id, key, capabilities, class and both limits |
| `Protocol.RelayHelloSays` | internal/gossipv1/protocol.go:276-289 | what a relay's HELLO announces |
| `Protocol.ParseSummary` | internal/gossipv1/protocol.go:443-503 | whatever parses has a full filter, a short sorted preview and the matching cursor |
| `Protocol.SummaryFields` | internal/gossipv1/protocol.go:443-503 | whatever parses has the filter, item count, preview and cursor of the payload |
| `Protocol.PresentableParses` | internal/gossipv1/protocol.go:443-503 | every summary with a full filter, a short sorted preview and a matching cursor parses back unchanged |
| `Protocol.BuildSummary` | internal/gossipv1/protocol.go:509-542 | filter, count, preview and cursor are those of the well-formed ids |
| `Protocol.SummaryParses` | internal/gossipv1/protocol.go:443-542 | every summary built passes the parser unchanged |
| `Protocol.ParseRequest` | internal/gossipv1/protocol.go:567-593 | whatever parses is at most 256 strictly sorted digests |
| `Protocol.RequestFields` | internal/gossipv1/protocol.go:567-593 | a payload parses to a list iff it is that list under its one field and the list is at most 256 strictly sorted digests |
| `Protocol.RequestParses` | internal/gossipv1/protocol.go:567-593 | every such list passes the parser unchanged |
| `Protocol.ParseReceipt` | internal/gossipv1/protocol.go:702-728 | whatever parses is at most 32 distinct non-empty ids |
| `Protocol.ReceiptFields` | internal/gossipv1/protocol.go:702-728 | a payload parses to a list iff it is that list under its one field and the list is at most 32 distinct non-empty ids |
| `Protocol.RelayIngestFields` | internal/gossipv1/protocol.go:418-441 | a payload parses to an ingest notice iff it is that list of ids under its one field |
| `Protocol.ReceiptParses` | internal/gossipv1/protocol.go:702-728 | every such list passes the parser unchanged |
| `Transfer.TransferPartition` | internal/gossipv1/protocol.go:595-700 | accepted and rejected indices partition the frame in order, accepted ids are distinct and each the hash of its own bytes, accepted bytes total at most 524288 |
| `Transfer.ParseObjects` | internal/gossipv1/protocol.go:595-700 | the single pass with running total and seen set follows the acceptance rule |
| `Transfer.ListsHoldIndices` | internal/gossipv1/protocol.go:595-700 | every index is in exactly the list the rule says |
| `Transfer.ObjectParses` | internal/gossipv1/protocol.go:1061-1155 | an object parses iff it is the wire form of a genuine object |
| `Transfer.RefusalMeans` | internal/gossipv1/protocol.go:1061-1155 | the reason an object is refused for is the first of its faults, in the order given |
| `Transfer.TransferFrameMeans` | internal/gossipv1/protocol.go:595-620 | a transfer frame is exactly one list of at most 32 entries |
| `Transfer.RawTextMeans` | internal/gossipv1/protocol.go:1198-1213 | raw text decodes iff it is not empty, without padding, strict base64url and of some bytes |
| `DrainSessions.FirstReasonWins` | internal/gossipv1/drain_session.go:121-268 | the first stop reason never changes |
| `DrainSessions.StopIsPermanent` | internal/gossipv1/drain_session.go:231-268 | however the session came to stop, no later call changes why |
| `DrainSessions.BytesStayUnderBudget` | internal/gossipv1/drain_session.go:121-159 | while unstopped the recorded bytes stay below a positive budget |
| `DrainSessions.AllowedSendIsNotTheLast` | internal/gossipv1/drain_session.go:131-149 | recording a send that was allowed never reaches the byte budget |
| `DrainSessions.GatedRunsStayWithinLimits` | internal/gossipv1/drain_session.go:191-229 | if every completed round was allowed, rounds, yield interval and streak limits hold |
| `DrainSessions.UngatedBound` | internal/gossipv1/drain_session.go:191-229 | over all call sequences k rounds completed without asking pass round budget and streak cap by at most k and at most k yield points |
| `DrainSessions.FreshIsWithinLimits` | internal/gossipv1/drain_session.go:48-104 | a new session starts within all limits |
| `DrainSessions.DisabledLimitsNeverStop` | internal/gossipv1/drain_session.go:203-268 | without limits only an explicit stop ends a session, however long it runs |
| `DrainSessions.BudgetsMean` | internal/gossipv1/drain_session.go:249-268 | a check stops a running session for the first of round, time and byte budget that is reached, and for nothing else |
| `DrainSessions.StartMeans` | internal/gossipv1/drain_session.go:203-229 | a round may start iff nothing stopped the session, no budget is reached, the streak is below its cap and this is no yield point |
| `DrainSessions.SendMeans` | internal/gossipv1/drain_session.go:131-149 | bytes may be sent iff there are none, or nothing stopped the session, no budget is reached and they leave the byte budget unreached |
| `DrainSessions.TimeIsUp` | internal/gossipv1/drain_session.go:249-268 | once the wall clock has run out every call that looks at it stops the session, and nothing more may be sent or started |
| `DrainSessions.NormalizeMeans` | internal/gossipv1/drain_session.go:48-90 | configured limits count when positive and are off otherwise |
| `DrainSessions.CountersAddUp` | internal/gossipv1/drain_session.go:121-201 | over every call sequence the counters are the sums of what was reported, the streak the rounds without progress since the last with progress |
| `DrainSessions.UngatedRoundsPassTheBudget` | internal/gossipv1/drain_session.go:191-201 | rounds completed without asking pass any budget |
| `DrainHandlers.TransferIffServable` | internal/api/ws.go:631-712 | under any limits a request is answered by a transfer iff it names something, a round may start, lookups work, something is servable, the frame fits and is queued, and its bytes leave the budget unreached |
| `DrainHandlers.SentIff` | internal/api/ws.go:1429-1520 | a frame goes out iff it can be encoded and queued, nothing stopped the session and no budget is reached, the byte budget not even by it; otherwise the reason it ends with |
| `DrainHandlers.SummaryIff` | internal/api/ws.go:539-593 | a summary goes out iff a round may start, the stores work and it can be sent after the round an empty one completes |
| `DrainHandlers.OfferIff` | internal/api/ws.go:595-629 | the REQUEST for a client's summary goes out iff the lookups work and it can be sent, after the round an empty one completes |
| `DrainHandlers.UploadIff` | internal/api/ws.go:714-807 | the RECEIPT for an upload goes out iff the lookups work and it can be sent after the round completed |
| `DrainHandlers.ReceiptIff` | internal/api/ws.go:919-996 | a receipt counts its new acknowledgements and completes a round; the next summary goes out iff there are new ones, there is a recipient and a summary can |
| `DrainHandlers.HandlerOvershootBound` | internal/api/ws.go:333-996 | over every sequence of calls of all five handlers and the read pump, ending at the first stop: rounds pass their budget by at most one plus the empty requests in a row, the streak its cap by at most one plus the unchecked no-progress rounds, and at most as many yield points as rounds completed without asking |
| `DrainHandlers.SessionOvershootBound` | internal/api/ws.go:333-996 | the same of every whole session, for every configured limits |
| `DrainHandlers.RoundOvershootIsReached` | internal/api/ws.go:631-712 | for every budget and number of empty requests the round bound is reached, by a session from its HELLO on that the adapter lets through |
| `DrainHandlers.StreakOvershootIsReached` | internal/api/ws.go:595-807 | for every cap and every mix of empty requests, summaries with nothing wanted and refused uploads such a session reaches the streak bound |
| `DrainHandlers.YieldOvershootIsReached` | internal/api/ws.go:714-807 | for every interval and number of yield points such a session of an uploading client passes that many |
| `DrainHandlers.PacedClientsKeepRoundBudget` | internal/api/ws.go:385-416 | any client that sends one frame in each chunk keeps the round budget |
| `DrainHandlers.OrderlyClientsKeepLimits` | internal/api/ws.go:333-996 | a client that only receives, requests something each time and not while a receipt is due, and acknowledges only when one is, keeps round, yield and streak limits over every session |
| `DrainSessions.DrainSession.CanSendBytes` | internal/gossipv1/drain_session.go:131-149 | state and answer; a yes leaves the budget unreached after the send |
| `DrainSessions.DrainSession.CanStartAnotherRound` | internal/gossipv1/drain_session.go:203-229 | state and answer, and the stop reason of a no |
| `DrainSessions.DrainSession.StopReasonForBudgetExceeded` | internal/gossipv1/drain_session.go:249-268 | the first budget exceeded becomes the reason unless there is one |
| `DrainSessions.DrainSession.RecordBytesSent` | internal/gossipv1/drain_session.go:121-129 | counts positive bytes and checks the budgets |
| `DrainSessions.DrainSession.RecordBytesReceived` | internal/gossipv1/drain_session.go:151-159 | the same for received bytes |
| `DrainSessions.DrainSession.Complete` | internal/gossipv1/drain_session.go:191-201 | counts the round and its streak |
| `DrainSessions.DrainSession.StopWith` | internal/gossipv1/drain_session.go:231-241 | sets the reason unless there is one |
| `Acks.MarkEachResult` | internal/store/bbolt_store.go:291-323 | a batch adds the keys of its non-empty ids and reports those that are new, whatever repeats it has |
| `Acks.AckStore.MarkAcked` | internal/store/bbolt_store.go:263-288 | adds one key and reports whether it is new, or fails and adds nothing |
| `Acks.AckStore.MarkAckedBatch` | internal/store/bbolt_store.go:291-323 | equals marking each non-empty id in turn, or fails as a whole |
| `Acks.AckStore.IsAckedBy` | internal/store/bbolt_store.go:338-351 | whether the pair's key is there, or that the lookup failed |
| `Acks.AckStore.RemoveMessageAcks` | internal/store/bbolt_store.go:354-406 | the cursor walk deletes exactly the keys with the message's prefix |
| `Acks.RemoveClearsOneMessage` | internal/store/bbolt_store.go:393-406 | those are exactly that message's keys |
| `Acks.KeysIsolatePairs` | internal/store/codec.go:170-176 | keys of different pairs differ, although identities contain NUL |
| `Acks.IdentityRoundTrip` | internal/storeforward/client.go:15-29 | the queue recipient of an identity is its wayfarer; identities determine both parts |
| `Acks.ReceiptAccounting` | internal/api/ws.go:927-946 | a receipt is counted as the growth of its identity's acked messages and touches no other identity |
| `Acks.AccountingBalances` | internal/api/ws.go:927-946 | over all receipts of all sessions the counts of an identity add up to its distinct acked messages |
| `Acks.DuplicateReceiptOvercounts` | internal/api/ws.go:934-946 | a repeated id would be counted twice |
| `RateLimiters.SlidingWindowBound` | internal/federation/peering.go:1557-1602 | any window of the configured length holds at most maxRequests granted calls of a peer, in every interleaving of calls and cleanups |
| `RateLimiters.DeniedExactlyWhenFull` | internal/federation/peering.go:1557-1580 | a call is denied iff the window ending at it is full of granted calls |
| `RateLimiters.CleanupChangesNoDecision` | internal/federation/peering.go:1582-1602 | the decisions with cleanups are those without |
| `RateLimiters.LimiterIsPlainRule` | internal/federation/peering.go:1557-1602 | the pruned histories decide as the full history would |
| `RateLimiters.RateLimiter.AllowCall` | internal/federation/peering.go:1557-1580 | new histories and answer |
| `RateLimiters.RateLimiter.CleanupAll` | internal/federation/peering.go:1582-1602 | prunes every history and drops empty ones |
| `RateLimiters.RateLimiter.StillValid` | internal/federation/peering.go:1563-1570 | the entries inside the window, in order |

## Left out

Assumptions, stated as preconditions or parameters where they matter:

- Times are int64 nanoseconds in UTC (years 1677 to 2262, so all four-digit); other zones are not modelled.
- The clock does not run backwards where a statement compares two readings.
- CBOR, SHA-256, the canonical-CBOR test and the signed item parser are uninterpreted; `Lockstep.Faithful` assumes that every frame short enough to send is decoded back by the peer.
- bbolt cursors are a walk over the keys as they are when the walk starts; pages, transactions and files are not modelled.
- `ToLower` covers ASCII; 64-character lower-case hex does not need more.
- The Go sort is an insertion sort; for distinct ids every correct sort gives the same list.
- Byte and item counters are unbounded integers; int64 overflow is not modelled.

Members that assume or state less than the code:

- EnvelopeStores.EnvelopeStore.SweepExpiredEnvelopes: the sweep stops at the first failing remove, as the code does; a failing read of the index is not modelled.
- DrainLoop.ClientSession.SendDrainSummary: needs a recipient, which HELLO validation guarantees before the first summary; the parameter that stops on an empty summary is always false in the code and is not modelled. The budget checks inside one handler call share one clock reading.
- Uploads.HandleTransfer: expects the distinct ids the parser guarantees; the message store is reduced to how its calls turn out.
- DrainHandlers.HandlerOvershootBound: the local HELLO and the pushed summaries, which complete no rounds, are not calls of the model.
- DrainConvergence.DrainAll: a drain with an identity, no limits (the handler's own setting), working stores, a free send queue and frames that fit, over a store nothing else changes; other drains may stop early. The debounced summary push that a new message triggers, which can revive a stalled session, is not modelled.
- DrainDelivery.DrainStore: of a store filled by accepting transfer objects; an envelope that the engine wrote for a message whose transferred envelope was then refused is listed but never servable, and falls under the stall condition of `DrainConvergence.DriveRound` only.
- Encounters.MeetingsReach: of the summaries sent once per connection; ids announced one by one when a message arrives (`forwardSummaryToPeers`) are covered by `Lockstep.ActKeepsInv` only.
- Lockstep.EncountersNeverGoFatal: store lookups do not fail and an endpoint sends only frames that fit; the code closes the connection in both cases. The reaction to a frame is a function on values, so the order in which the read loop and the write loop interleave inside one reaction is not captured.
- Lockstep.TakeInKeeps: an envelope whose recipient holds a NUL or whose fields exceed the codec's widths is refused in the model of two relays, while the code stores it; `EnvelopeTables.PersistAgreesIff` says what storing it does.
- RelayObject.RelayPreservesObject: models the checks of internal/api/ws.go; the federation side refuses one case more, which `Lockstep.Acceptable` adds.
- Ingest.Engine.AcceptRelayForward: the message store is the set of its message ids; timestamps written beside seen keys and markers are not stored.
- Acks.AccountingBalances: message ids have no NUL and nothing is removed in between.

Not modelled:

- The WebSocket read and write pumps, dialling, reconnects, deadlines, the debounced summary push, HTTP handlers, metrics, logging and flags.
- `PullForDeliveryIdentity` and the legacy queue of the message store with its own queue and expiry indexes, which keep whole seconds in records and nanoseconds in keys.
- The descriptor store and descriptor gossip, whose updates leave old expiry keys behind.
- Relay scoring, adaptive width, and the batching and padding of forwarded traffic.
- Fallbacks that always find nothing: a transfer object is never derived from a stored message in this version.
